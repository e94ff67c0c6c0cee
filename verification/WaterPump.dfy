/**
 The water pump of `main.c`: `set_water` in the foreground, interrupted at any point by the
 alarm that runs `set_water` again when watering has lasted WATERING_TIME_MS.

 A foreground call is a sequence of micro-steps; the alarm interrupt runs to completion
 between two of them.  `limit` bounds how long one foreground call may hold the mutex.
 */
module WaterPump {

  const WATERING_TIME_MS := 10_000

  /** The next statement of the foreground call; Idle outside of one. */
  datatype Point =
    | Idle | CheckAlarm | CancelAlarm | ClearId | Compare
    | AddAlarm | StoreId(id: int) | RaisePin | WriteOn
    | LowerPin | WriteOff | ExitMutex

  datatype Alarm = NoAlarm | Pending(id: int, due: nat)

  datatype Pump = Pump(
    now: nat,
    point: Point,
    alarmId: int,          // water_pump_alarm
    alarm: Alarm,          // the one slot of the alarm pool
    text: string,          // topic_data
    pin: bool,
    onSince: nat,          // when the pin was last raised
    entered: nat,          // when the foreground last took the mutex
    skipped: bool,         // the alarm found the mutex taken during the last foreground call
    nextId: int)

  const INITIAL := Pump(0, Idle, 0, NoAlarm, "OFF", false, 0, 0, false, 1)

  predicate Locked(s: Pump) { s.point != Idle }

  /** One statement of `set_water`; `ok` is whether the pool has room for an alarm. */
  function Statement(s: Pump, ok: bool): Pump
  {
    match s.point
    case Idle => s.(point := CheckAlarm, entered := s.now, skipped := false)
    case CheckAlarm => s.(point := if s.alarmId != 0 then CancelAlarm else Compare)
    case CancelAlarm =>
      s.(point := ClearId, alarm := if s.alarm.Pending? && s.alarm.id == s.alarmId then NoAlarm else s.alarm)
    case ClearId => s.(point := Compare, alarmId := 0)
    case Compare => s.(point := if s.text == "OFF" then AddAlarm else LowerPin)
    case AddAlarm =>
      if ok && s.alarm.NoAlarm?
      then s.(point := StoreId(s.nextId), alarm := Pending(s.nextId, s.now + WATERING_TIME_MS), nextId := s.nextId + 1)
      else s.(point := StoreId(-1))
    case StoreId(id) => s.(point := if id >= 0 then RaisePin else ExitMutex, alarmId := id)
    case RaisePin => s.(point := WriteOn, pin := true, onSince := s.now)
    case WriteOn => s.(point := ExitMutex, text := "ON")
    case LowerPin => s.(point := WriteOff, pin := false)
    case WriteOff => s.(point := ExitMutex, text := "OFF")
    case ExitMutex => s.(point := Idle)
  }

  function RunToExit(s: Pump, ok: bool, n: nat): Pump
    decreases n
  {
    if n == 0 || s.point == Idle then s else RunToExit(Statement(s, ok), ok, n - 1)
  }

  /** `set_water` without interruption, entered with the mutex free. */
  function WholeCall(s: Pump, ok: bool): Pump
  {
    RunToExit(Statement(s, ok), ok, 9)
  }

  /** The alarm interrupt: the slot is freed, then `set_water` runs unless the mutex is taken. */
  function Interrupt(s: Pump, ok: bool): Pump
  {
    var fired := s.(alarm := NoAlarm);
    if Locked(s) then fired.(skipped := true) else WholeCall(fired, ok)
  }

  datatype Event = Tick(ms: nat) | Foreground(ok: bool) | Fire(ok: bool)

  function Apply(s: Pump, e: Event): Pump
  {
    match e
    case Tick(ms) => s.(now := s.now + ms)
    case Foreground(ok) => Statement(s, ok)
    case Fire(ok) => Interrupt(s, ok)
  }

  /** An alarm is served when it is due, and a foreground call holds the mutex for less than limit. */
  predicate Enabled(s: Pump, e: Event, limit: nat)
  {
    match e
    case Tick(ms) =>
      && (s.alarm.Pending? ==> s.now + ms <= s.alarm.due)
      && (Locked(s) ==> s.now + ms < s.entered + limit)
    case Foreground(_) => true
    case Fire(_) => s.alarm.Pending? && s.alarm.due <= s.now
  }

  /** The state after the first i events of a run. */
  function StateAt(run: seq<Event>, i: nat): Pump
    requires i <= |run|
  {
    if i == 0 then INITIAL else Apply(StateAt(run, i - 1), run[i - 1])
  }

  predicate EnabledAt(run: seq<Event>, limit: nat, i: nat)
    requires i < |run|
  {
    Enabled(StateAt(run, i), run[i], limit)
  }

  ghost predicate Legal(run: seq<Event>, limit: nat)
  {
    forall i :: 0 <= i < |run| ==> EnabledAt(run, limit, i)
  }

  // ----- what must hold -----

  /** With the mutex free, the pin, the published text and the pending timeout agree. */
  predicate Consistent(s: Pump)
  {
    && (s.text == "ON" || s.text == "OFF")
    && (s.pin <==> s.text == "ON")
    && (s.pin <==> s.alarm.Pending?)
    && (s.pin ==> s.now <= s.alarm.due <= s.onSince + WATERING_TIME_MS)
  }

  predicate Safe(s: Pump) { !Locked(s) ==> Consistent(s) }

  /** The id the foreground would cancel is the pending one. */
  predicate Armed(s: Pump) { s.alarm.Pending? ==> s.alarmId == s.alarm.id }

  /** The alarm was set during this call, so it is not due before the call ends. */
  predicate Fresh(s: Pump)
  {
    s.alarm.Pending? && s.entered + WATERING_TIME_MS <= s.alarm.due <= s.now + WATERING_TIME_MS
  }

  /** Pin and text still agree; a timeout is pending, cancelled or skipped only if the pump is on. */
  predicate Entered(s: Pump)
  {
    && (s.pin <==> s.text == "ON")
    && (s.alarm.Pending? || s.skipped ==> s.pin)
    && (s.pin ==> s.entered <= s.onSince + WATERING_TIME_MS)
    && (s.pin && s.alarm.Pending? ==> s.alarm.due <= s.onSince + WATERING_TIME_MS)
  }

  /** The inductive invariant, point by point. */
  predicate Inv(s: Pump)
  {
    && (s.text == "ON" || s.text == "OFF")
    && s.entered <= s.now
    && s.nextId > 0
    && (s.alarm.Pending? ==> s.now <= s.alarm.due && 0 < s.alarm.id < s.nextId)
    && (Locked(s) ==> s.now < s.entered + WATERING_TIME_MS)
    && (s.pin ==> s.onSince <= s.now)
    && match s.point
       case Idle => Consistent(s) && Armed(s) && (s.skipped ==> !s.pin)
       case CheckAlarm => Entered(s) && Armed(s)
       case CancelAlarm => Entered(s) && Armed(s)
       case ClearId => Entered(s) && s.alarm.NoAlarm?
       case Compare => Entered(s) && s.alarm.NoAlarm? && s.alarmId == 0
       case AddAlarm => !s.pin && s.text == "OFF" && s.alarm.NoAlarm? && !s.skipped
       case StoreId(id) =>
         && !s.pin && s.text == "OFF" && !s.skipped
         && (if id >= 0 then Fresh(s) && s.alarm.id == id else s.alarm.NoAlarm?)
       case RaisePin => !s.pin && !s.skipped && Fresh(s) && Armed(s)
       case WriteOn => s.pin && !s.skipped && Fresh(s) && Armed(s) && s.alarm.due <= s.onSince + WATERING_TIME_MS
       case LowerPin => s.alarm.NoAlarm? && (s.pin ==> s.entered <= s.onSince + WATERING_TIME_MS)
       case WriteOff => s.alarm.NoAlarm? && !s.pin
       case ExitMutex => Consistent(s) && Armed(s) && (s.skipped ==> !s.pin) && (s.pin ==> Fresh(s))
  }

  // ----- every step keeps the invariant -----

  predicate Undecided(p: Point) { p.Idle? || p.CheckAlarm? || p.CancelAlarm? || p.ClearId? || p.Compare? }

  lemma FirstStatementsKeepInv(s: Pump, ok: bool)
    requires Inv(s) && Undecided(s.point)
    ensures Inv(Statement(s, ok))
  {
  }

  lemma LastStatementsKeepInv(s: Pump, ok: bool)
    requires Inv(s) && !Undecided(s.point)
    ensures Inv(Statement(s, ok))
  {
  }

  /** Every call first disarms the timeout; n statements are left at the comparison. */
  lemma ReachesCompare(s: Pump, ok: bool) returns (n: nat)
    requires s.point == CheckAlarm && (s.alarm.Pending? ==> s.alarmId == s.alarm.id != 0)
    ensures n >= 6
    ensures RunToExit(s, ok, 9) == RunToExit(s.(point := Compare, alarmId := 0, alarm := NoAlarm), ok, n)
  {
    if s.alarmId != 0 {
      var c := s.(point := ClearId, alarm := NoAlarm);
      assert RunToExit(s, ok, 9) == RunToExit(c, ok, 7);
      n := 6;
    } else {
      n := 8;
    }
  }

  lemma SwitchesOff(s: Pump, ok: bool, n: nat)
    requires s.point == Compare && s.text == "ON" && n >= 4
    ensures RunToExit(s, ok, n) == s.(point := Idle, pin := false, text := "OFF")
  {
    var w := s.(point := WriteOff, pin := false);
    assert RunToExit(s, ok, n) == RunToExit(w, ok, n - 2);
    assert RunToExit(w, ok, n - 2) == RunToExit(w.(point := Idle, text := "OFF"), ok, n - 4);
  }

  lemma SwitchesOn(s: Pump, n: nat)
    requires s.point == Compare && s.text == "OFF" && s.alarm.NoAlarm? && s.nextId >= 0 && n >= 6
    ensures RunToExit(s, true, n) ==
      Pump(s.now, Idle, s.nextId, Pending(s.nextId, s.now + WATERING_TIME_MS), "ON", true, s.now,
           s.entered, s.skipped, s.nextId + 1)
  {
    var a := s.(point := StoreId(s.nextId), alarm := Pending(s.nextId, s.now + WATERING_TIME_MS), nextId := s.nextId + 1);
    assert RunToExit(s, true, n) == RunToExit(a, true, n - 2);
    var w := a.(point := WriteOn, alarmId := s.nextId, pin := true, onSince := s.now);
    assert RunToExit(a, true, n - 2) == RunToExit(w, true, n - 4);
    assert RunToExit(w, true, n - 4) == RunToExit(w.(point := Idle, text := "ON"), true, n - 6);
  }

  /** An undisturbed call with room in the pool toggles the pump and arms or disarms the timeout with it. */
  lemma UndisturbedCallToggles(s: Pump)
    requires Inv(s) && !Locked(s)
    ensures var u := WholeCall(s, true);
            Inv(u) && !Locked(u) && u.pin == !s.pin && (u.pin ==> u.alarm.due == s.now + 10_000)
  {
    var t := Statement(s, true);
    var n := ReachesCompare(t, true);
    var c := t.(point := Compare, alarmId := 0, alarm := NoAlarm);
    if s.pin {
      SwitchesOff(c, true, n);
    } else {
      SwitchesOn(c, n);
    }
  }

  /** The timeout either switches the pump off or finds a foreground call at work; it never switches it on. */
  lemma TimeoutNeverSwitchesOn(s: Pump, ok: bool)
    requires Inv(s) && s.alarm.Pending? && s.alarm.due <= s.now
    ensures Inv(Interrupt(s, ok))
    ensures if Locked(s) then Interrupt(s, ok).skipped && Interrupt(s, ok).pin == s.pin
            else !Interrupt(s, ok).pin && Interrupt(s, ok).text == "OFF"
  {
    if !Locked(s) {
      var t := Statement(s.(alarm := NoAlarm), ok);
      var n := ReachesCompare(t, ok);
      SwitchesOff(t.(point := Compare, alarmId := 0), ok, n);
    }
  }

  lemma EventKeepsInv(s: Pump, e: Event, limit: nat)
    requires Inv(s) && Enabled(s, e, limit) && limit <= WATERING_TIME_MS
    ensures Inv(Apply(s, e))
  {
    match e
    case Tick(ms) =>
    case Foreground(ok) =>
      if Undecided(s.point) {
        FirstStatementsKeepInv(s, ok);
      } else {
        LastStatementsKeepInv(s, ok);
      }
    case Fire(ok) => TimeoutNeverSwitchesOn(s, ok);
  }

  lemma InitialInv()
    ensures Inv(INITIAL)
  {
  }

  lemma {:induction false} RunStep(run: seq<Event>, limit: nat, i: nat)
    requires Legal(run, limit) && 0 < i <= |run|
    ensures Enabled(StateAt(run, i - 1), run[i - 1], limit)
    ensures StateAt(run, i) == Apply(StateAt(run, i - 1), run[i - 1])
  {
    assert EnabledAt(run, limit, i - 1);
  }

  lemma {:induction false} InvAlways(run: seq<Event>, limit: nat, i: nat)
    requires Legal(run, limit) && limit <= WATERING_TIME_MS && i <= |run|
    ensures Inv(StateAt(run, i))
    decreases i
  {
    if i == 0 {
      InitialInv();
    } else {
      InvAlways(run, limit, i - 1);
      RunStep(run, limit, i);
      EventKeepsInv(StateAt(run, i - 1), run[i - 1], limit);
    }
  }

  /** How long the pump can be on: the watering time, plus one foreground call that outlasts the alarm. */
  lemma WateringIsBounded(run: seq<Event>, limit: nat, i: nat)
    requires Legal(run, limit) && limit <= WATERING_TIME_MS && i <= |run|
    ensures var s := StateAt(run, i);
            s.pin ==> s.now <= s.onSince + 10_000 || (Locked(s) && s.now < s.onSince + 20_000)
  {
    InvAlways(run, limit, i);
  }

  /** A timeout that the try-lock skipped is made good by the foreground call that held the mutex. */
  lemma SkippedTimeoutIsMadeGood(run: seq<Event>, limit: nat, i: nat)
    requires Legal(run, limit) && limit <= WATERING_TIME_MS && i <= |run|
    ensures var s := StateAt(run, i);
            s.skipped && (s.point == ExitMutex || s.point == Idle) ==> !s.pin && s.text == "OFF"
  {
    InvAlways(run, limit, i);
  }

  // ----- a call toggles the pump, whatever happens inside it -----

  /** On the way of a call that found the pump in this state to leaving it in the other one. */
  predicate Toggling(s: Pump, was: bool)
  {
    match s.point
    case CheckAlarm => s.pin == was
    case CancelAlarm => s.pin == was
    case ClearId => s.pin == was
    case Compare => s.pin == was
    case AddAlarm => !was
    case StoreId(id) => !was && id >= 0
    case RaisePin => !was
    case WriteOn => !was
    case LowerPin => was
    case WriteOff => was
    case ExitMutex => s.pin == !was
    case Idle => s.pin == !was
  }

  lemma EventKeepsToggling(s: Pump, e: Event, limit: nat, was: bool)
    requires Inv(s) && Enabled(s, e, limit) && limit <= WATERING_TIME_MS
    requires Locked(s) && Toggling(s, was) && (was || (e.Foreground? ==> e.ok))
    ensures Toggling(Apply(s, e), was)
  {
  }

  ghost function States(run: seq<Event>): (ss: seq<Pump>)
    ensures |ss| == |run| + 1
  {
    seq(|run| + 1, i requires 0 <= i <= |run| => StateAt(run, i))
  }

  /** Event k of a run leads from a state with the invariant to the next one. */
  predicate RunsAt(ss: seq<Pump>, run: seq<Event>, limit: nat, k: nat)
    requires k < |run| && |ss| == |run| + 1
  {
    Inv(ss[k]) && Inv(ss[k + 1]) && Enabled(ss[k], run[k], limit) && ss[k + 1] == Apply(ss[k], run[k])
  }

  lemma RunsEverywhere(run: seq<Event>, limit: nat, k: nat)
    requires Legal(run, limit) && limit <= WATERING_TIME_MS && k < |run|
    ensures RunsAt(States(run), run, limit, k)
  {
    InvAlways(run, limit, k);
    InvAlways(run, limit, k + 1);
    RunStep(run, limit, k + 1);
  }

  /** Events i to j - 1 are one foreground call and what falls into it. */
  ghost predicate IsCall(ss: seq<Pump>, run: seq<Event>, i: nat, j: nat)
    requires |ss| == |run| + 1
  {
    && i < j <= |run|
    && run[i].Foreground?
    && ss[i].point == Idle && ss[j].point == Idle
    && forall k :: i < k < j ==> Locked(ss[k])
  }

  /** The alarm pool has room whenever the call asks it for an alarm. */
  ghost predicate HasRoom(run: seq<Event>, i: nat, j: nat)
    requires j <= |run|
  {
    forall k :: i <= k < j && run[k].Foreground? ==> run[k].ok
  }

  lemma {:induction false} CallIsToggling(ss: seq<Pump>, run: seq<Event>, limit: nat, i: nat, j: nat, k: nat)
    requires |ss| == |run| + 1 && limit <= WATERING_TIME_MS && IsCall(ss, run, i, j) && i < k <= j
    requires forall x :: 0 <= x < |run| ==> RunsAt(ss, run, limit, x)
    requires ss[i].pin || HasRoom(run, i, j)
    ensures Toggling(ss[k], ss[i].pin)
    decreases k
  {
    assert RunsAt(ss, run, limit, k - 1);
    if k == i + 1 {
    } else {
      CallIsToggling(ss, run, limit, i, j, k - 1);
      EventKeepsToggling(ss[k - 1], run[k - 1], limit, ss[i].pin);
    }
  }

  /**
   In every interleaving, a foreground call leaves the pump in the other state, text included,
   however much time passes inside it and whatever the alarm does: always when it was on, and
   when it was off if the pool has room for the alarm.
   */
  lemma CallToggles(run: seq<Event>, limit: nat, i: nat, j: nat)
    requires Legal(run, limit) && limit <= WATERING_TIME_MS && IsCall(States(run), run, i, j)
    requires States(run)[i].pin || HasRoom(run, i, j)
    ensures States(run)[j].pin == !States(run)[i].pin
    ensures States(run)[j].text == if States(run)[i].pin then "OFF" else "ON"
  {
    var ss := States(run);
    forall k | 0 <= k < |run| ensures RunsAt(ss, run, limit, k) {
      RunsEverywhere(run, limit, k);
    }
    CallIsToggling(ss, run, limit, i, j, j);
    assert RunsAt(ss, run, limit, j - 1);
  }

  // ----- the bound on the critical section is exact -----

  ghost predicate AlwaysSafe(limit: nat)
  {
    forall run, i :: Legal(run, limit) && 0 <= i <= |run| ==> Safe(StateAt(run, i))
  }

  /** A call that holds the mutex for the whole watering time, so that the alarm fires into it. */
  const SLOW_CALL: seq<Event> :=
    [Foreground(true), Foreground(true), Foreground(true), Foreground(true), Tick(WATERING_TIME_MS), Fire(true),
     Foreground(true), Foreground(true), Foreground(true), Foreground(true)]

  const SET_ALARM :=
    Pump(0, StoreId(1), 0, Pending(1, WATERING_TIME_MS), "OFF", false, 0, 0, false, 2)
  const LOST_ALARM :=
    Pump(WATERING_TIME_MS, StoreId(1), 0, NoAlarm, "OFF", false, 0, 0, true, 2)
  const ON_UNGUARDED :=
    Pump(WATERING_TIME_MS, Idle, 1, NoAlarm, "ON", true, WATERING_TIME_MS, 0, true, 2)

  lemma SlowCallSetsAlarm()
    ensures StateAt(SLOW_CALL, 1).point == CheckAlarm
    ensures StateAt(SLOW_CALL, 2).point == Compare
    ensures StateAt(SLOW_CALL, 3).point == AddAlarm
    ensures StateAt(SLOW_CALL, 4) == SET_ALARM
  {
  }

  lemma SlowCallLosesAlarm()
    ensures StateAt(SLOW_CALL, 5) == Apply(SET_ALARM, Tick(WATERING_TIME_MS))
    ensures StateAt(SLOW_CALL, 6) == LOST_ALARM
  {
    SlowCallSetsAlarm();
    assert StateAt(SLOW_CALL, 5) == Apply(StateAt(SLOW_CALL, 4), SLOW_CALL[4]);
    assert StateAt(SLOW_CALL, 6) == Apply(StateAt(SLOW_CALL, 5), SLOW_CALL[5]);
  }

  lemma SlowCallSwitchesOn()
    ensures StateAt(SLOW_CALL, 10) == ON_UNGUARDED
  {
    SlowCallLosesAlarm();
    assert StateAt(SLOW_CALL, 7) == Statement(LOST_ALARM, true);
    assert StateAt(SLOW_CALL, 8) == Statement(StateAt(SLOW_CALL, 7), true);
    assert StateAt(SLOW_CALL, 9) == Statement(StateAt(SLOW_CALL, 8), true);
    assert StateAt(SLOW_CALL, 10) == Statement(StateAt(SLOW_CALL, 9), true);
  }

  lemma SlowCallIsLegal(limit: nat)
    requires WATERING_TIME_MS < limit
    ensures Legal(SLOW_CALL, limit)
  {
    forall i | 0 <= i < |SLOW_CALL|
      ensures EnabledAt(SLOW_CALL, limit, i)
    {
      if i == 4 {
        SlowCallSetsAlarm();
      } else if i == 5 {
        SlowCallLosesAlarm();
      }
    }
  }

  /**
   In every interleaving the pump is safe whenever the mutex is free, exactly when no foreground
   call holds the mutex for the watering time or longer.
   */
  lemma SafeExactly(limit: nat)
    ensures AlwaysSafe(limit) <==> limit <= WATERING_TIME_MS
  {
    if limit <= WATERING_TIME_MS {
      forall run, i | Legal(run, limit) && 0 <= i <= |run|
        ensures Safe(StateAt(run, i))
      {
        InvAlways(run, limit, i);
      }
    } else {
      SlowCallIsLegal(limit);
      SlowCallSwitchesOn();
      assert !Safe(StateAt(SLOW_CALL, 10));
    }
  }
}
