/** The event table: generic events, one-shot and periodic timers, and the checks that report them. */
module Events {
  import opened Bytes
  import opened Options

  const MAX_EVENTS := 16
  const WORD := 0x1_0000_0000_0000_0000
  const TIMER_CANCEL := 0
  const TIMER_PERIODIC := 1

  datatype Kind = Generic | Timer | ConsoleIn

  /** `notify` names the callback and its context; `period` is 0 for a one-shot or unarmed timer. */
  datatype Slot = Slot(inUse: bool, kind: Kind, signaled: bool, notify: Option<nat>, deadline: u64, period: u64)

  const EMPTY := Slot(false, Generic, false, None, 0, 0)

  datatype Notification = Notification(event: u64, callback: nat)

  /** The slots, and every callback made so far. */
  datatype Table = Table(slots: seq<Slot>, notified: seq<Notification>)

  datatype Status = Success | InvalidParameter | NotReady

  datatype Op =
    | Create(kind: Kind, notify: Option<nat>)
    | Close(event: u64)
    | SetTimer(event: u64, timerType: u32, ticks: u64)
    | Signal(event: u64)
    | Check(event: u64, keyReady: bool)

  datatype Reply = Created(event: Option<nat>) | Done(status: Status)

  /** An event is its slot's number plus one. */
  predicate Live(t: Table, event: u64) {
    1 <= event <= |t.slots| && t.slots[event - 1].inUse
  }

  function At(t: Table, event: u64): Slot
    requires Live(t, event)
  {
    t.slots[event - 1]
  }

  function Put(t: Table, event: u64, slot: Slot): Table
    requires Live(t, event)
  {
    t.(slots := t.slots[event - 1 := slot])
  }

  /** The callback runs, and leaves the table alone. */
  function Notify(t: Table, event: u64): Table
    requires Live(t, event)
  {
    match At(t, event).notify
    case Some(f) => t.(notified := t.notified + [Notification(event, f)])
    case None => t
  }

  function FirstFree(slots: seq<Slot>, i: nat): (r: nat)
    requires i <= |slots|
    ensures i <= r <= |slots|
    ensures forall k :: i <= k < r ==> slots[k].inUse
    ensures r < |slots| ==> !slots[r].inUse
    decreases |slots| - i
  {
    if i == |slots| || !slots[i].inUse then i else FirstFree(slots, i + 1)
  }

  predicate Due(s: Slot, now: u64) {
    !(s.deadline == 0 && s.period == 0) && now >= s.deadline
  }

  /** The slot once its timer has fired at `now`. */
  function Rearmed(s: Slot, now: u64): Slot {
    s.(deadline := if s.period > 0 then (now + s.period) % WORD else 0)
  }

  function CheckLive(t: Table, event: u64, keyReady: bool, now: u64): (Table, Reply)
    requires Live(t, event)
  {
    var s := At(t, event);
    match s.kind
    case Generic => if s.signaled then (Put(t, event, s.(signaled := false)), Done(Success)) else (t, Done(NotReady))
    case Timer =>
      if Due(s, now) then (Notify(Put(t, event, Rearmed(s, now)), event), Done(Success)) else (t, Done(NotReady))
    case ConsoleIn => (t, Done(if keyReady then Success else NotReady))
  }

  function Do(t: Table, op: Op, now: u64): (Table, Reply) {
    match op
    case Create(kind, notify) =>
      var i := FirstFree(t.slots, 0);
      if i == |t.slots| then (t, Created(None))
      else (t.(slots := t.slots[i := EMPTY.(inUse := true, kind := kind, notify := notify)]), Created(Some(i + 1)))
    case Close(event) =>
      if Live(t, event) then (Put(t, event, EMPTY), Done(Success)) else (t, Done(InvalidParameter))
    case SetTimer(event, timerType, ticks) =>
      if !Live(t, event) then (t, Done(InvalidParameter))
      else if timerType == TIMER_CANCEL then (Put(t, event, At(t, event).(deadline := 0, period := 0)), Done(Success))
      else
        var period := if timerType != TIMER_PERIODIC then 0 else if ticks > 1 then ticks else 1;
        (Put(t, event, At(t, event).(deadline := (now + ticks) % WORD, period := period)), Done(Success))
    case Signal(event) =>
      if Live(t, event) then (Notify(Put(t, event, At(t, event).(signaled := true)), event), Done(Success))
      else (t, Done(InvalidParameter))
    case Check(event, keyReady) =>
      if Live(t, event) then CheckLive(t, event, keyReady, now) else (t, Done(InvalidParameter))
  }

  class EventTable {
    const slots: array<Slot>
    ghost var notified: seq<Notification>

    ghost function State(): Table
      reads this, slots
    {
      Table(slots[..], notified)
    }

    ghost predicate Valid() {
      slots.Length == MAX_EVENTS
    }

    constructor ()
      ensures Valid() && fresh(slots) && notified == []
      ensures slots.Length == 16 && forall i :: 0 <= i < 16 ==> slots[i] == EMPTY
    {
      slots := new Slot[MAX_EVENTS](_ => EMPTY);
      notified := [];
    }

    method EventToIndex(event: u64) returns (i: Option<nat>)
      requires Valid()
      ensures i == if 1 <= event <= slots.Length then Some(event - 1) else None
    {
      return if event == 0 || event > MAX_EVENTS then None else Some(event - 1);
    }

    method CallNotify(i: nat)
      requires Valid() && i < MAX_EVENTS && slots[i].inUse
      modifies this`notified
      ensures State() == Notify(old(State()), i + 1)
    {
      match slots[i].notify {
        case Some(f) => notified := notified + [Notification(i + 1, f)];
        case None =>
      }
    }

    method Create(kind: Kind, notify: Option<nat>, ghost now: u64) returns (event: Option<nat>)
      requires Valid()
      modifies slots
      ensures (State(), Created(event)) == Do(old(State()), Op.Create(kind, notify), now)
    {
      for i := 0 to MAX_EVENTS
        invariant slots[..] == old(slots[..])
        invariant FirstFree(slots[..], 0) == FirstFree(slots[..], i)
      {
        if !slots[i].inUse {
          slots[i] := EMPTY.(inUse := true, kind := kind, notify := notify);
          return Some(i + 1);
        }
      }
      return None;
    }

    method Close(event: u64, ghost now: u64) returns (status: Status)
      requires Valid()
      modifies slots
      ensures (State(), Done(status)) == Do(old(State()), Op.Close(event), now)
    {
      var i := EventToIndex(event);
      if i.None? || !slots[i.value].inUse {
        return InvalidParameter;
      }
      slots[i.value] := EMPTY;
      return Success;
    }

    /** `toTicks` is the clock's conversion from microseconds. */
    method SetTimer(event: u64, timerType: u32, trigger100ns: u64, now: u64, toTicks: u64 -> u64)
      returns (status: Status)
      requires Valid()
      modifies slots
      ensures (State(), Done(status))
              == Do(old(State()), Op.SetTimer(event, timerType, toTicks(trigger100ns / 10)), now)
    {
      var i := EventToIndex(event);
      if i.None? || !slots[i.value].inUse {
        return InvalidParameter;
      }
      var s := slots[i.value];
      if timerType == TIMER_CANCEL {
        slots[i.value] := s.(period := 0, deadline := 0);
        return Success;
      }
      var ticks := toTicks(trigger100ns / 10);
      slots[i.value] := s.(deadline := (now + ticks) % WORD,
                           period := if timerType == TIMER_PERIODIC then if ticks < 1 then 1 else ticks else 0);
      return Success;
    }

    method Signal(event: u64, ghost now: u64) returns (status: Status)
      requires Valid()
      modifies slots, this`notified
      ensures (State(), Done(status)) == Do(old(State()), Op.Signal(event), now)
    {
      var i := EventToIndex(event);
      if i.None? || !slots[i.value].inUse {
        return InvalidParameter;
      }
      slots[i.value] := slots[i.value].(signaled := true);
      CallNotify(i.value);
      return Success;
    }

    /** Whether the event's condition holds; a timer that is due is rearmed and its callback made. */
    method ConditionMet(i: nat, keyReady: bool, now: u64) returns (met: bool)
      requires Valid() && i < MAX_EVENTS && slots[i].inUse
      modifies slots, this`notified
      ensures slots[i].kind == old(slots[i]).kind
      ensures var t := old(State());
              if slots[i].kind.Generic? then met == t.slots[i].signaled && State() == t
              else (State(), Done(if met then Success else NotReady)) == CheckLive(t, i + 1, keyReady, now)
    {
      var s := slots[i];
      match s.kind {
        case Generic =>
          return s.signaled;
        case Timer =>
          if s.deadline == 0 && s.period == 0 {
            return false;
          }
          if now >= s.deadline {
            slots[i] := s.(deadline := if s.period > 0 then (now + s.period) % WORD else 0);
            CallNotify(i);
            return true;
          }
          return false;
        case ConsoleIn =>
          return keyReady;
      }
    }

    method Check(event: u64, keyReady: bool, now: u64) returns (status: Status)
      requires Valid()
      modifies slots, this`notified
      ensures (State(), Done(status)) == Do(old(State()), Op.Check(event, keyReady), now)
    {
      var i := EventToIndex(event);
      if i.None? || !slots[i.value].inUse {
        return InvalidParameter;
      }
      var met := ConditionMet(i.value, keyReady, now);
      if met {
        if slots[i.value].kind.Generic? {
          slots[i.value] := slots[i.value].(signaled := false);
        }
        return Success;
      }
      return NotReady;
    }
  }

  // ---------- runs ----------

  datatype Timed = Timed(op: Op, now: u64)

  /** A run under a tick count that never goes backwards. */
  ghost predicate Run(tables: seq<Table>, ops: seq<Timed>) {
    && |tables| == |ops| + 1
    && (forall i :: 0 <= i < |ops| ==> tables[i + 1] == Do(tables[i], ops[i].op, ops[i].now).0)
    && (forall i, j :: 0 <= i < j < |ops| ==> ops[i].now <= ops[j].now)
  }

  /** Nobody rearms, cancels or closes `event`. */
  predicate LeavesAlone(op: Op, event: u64) {
    !(op.Close? && op.event == event) && !(op.SetTimer? && op.event == event)
  }

  /** The step is a check of `event` that reports it. */
  predicate Reports(t: Table, o: Timed, event: u64) {
    o.op.Check? && o.op.event == event && Do(t, o.op, o.now).1 == Done(Success)
  }

  /** How many of the first `n` steps report `event`. */
  function Reported(tables: seq<Table>, ops: seq<Timed>, event: u64, n: nat): nat
    requires n <= |ops| < |tables|
  {
    if n == 0 then 0
    else Reported(tables, ops, event, n - 1) + if Reports(tables[n - 1], ops[n - 1], event) then 1 else 0
  }

  /** How many of the first `n` steps signal `event`. */
  function Signals(ops: seq<Timed>, event: u64, n: nat): nat
    requires n <= |ops|
  {
    if n == 0 then 0
    else Signals(ops, event, n - 1) + if ops[n - 1].op == Signal(event) then 1 else 0
  }

  /** What one step does to a live event that it does not rearm, cancel or close. */
  lemma StepOnEvent(t: Table, op: Op, now: u64, event: u64)
    requires Live(t, event) && LeavesAlone(op, event)
    ensures var t' := Do(t, op, now).0;
            var s := At(t, event);
            && Live(t', event) && |t'.slots| == |t.slots|
            && At(t', event) ==
               if op == Signal(event) then s.(signaled := true)
               else if op.Check? && op.event == event && s.kind.Generic? then s.(signaled := false)
               else if op.Check? && op.event == event && s.kind.Timer? && Due(s, now) then Rearmed(s, now)
               else s
  {
  }

  lemma StepReports(t: Table, o: Timed, event: u64)
    requires Live(t, event)
    ensures At(t, event).kind.Timer? ==>
              (Reports(t, o, event) <==> o.op.Check? && o.op.event == event && Due(At(t, event), o.now))
    ensures At(t, event).kind.Generic? ==>
              (Reports(t, o, event) <==> o.op.Check? && o.op.event == event && At(t, event).signaled)
    ensures At(t, event).kind.ConsoleIn? ==>
              (Reports(t, o, event) <==> o.op.Check? && o.op.event == event && o.op.keyReady)
  {
  }

  /** The latest tick count seen in the first `n` steps. */
  function LastTick(ops: seq<Timed>, n: nat): u64
    requires n <= |ops|
  {
    if n == 0 then 0 else ops[n - 1].now
  }

  lemma MulGrows(a: nat, b: nat, p: nat)
    requires a <= b
    ensures a * p <= b * p
  {
  }

  lemma DivisionBound(k: nat, p: nat, d: nat)
    requires p > 0 && k * p <= d
    ensures k <= d / p
  {
    if k > d / p {
      MulGrows(d / p + 1, k, p);
      assert false;
    }
  }

  /** `f` reports by tick `now`, each at least a period `p` after the one before, the first not before `first`. */
  predicate Paced(f: nat, p: nat, first: nat, next: nat, now: nat) {
    next >= first + f * p && (f > 0 ==> now >= first + (f - 1) * p)
  }

  lemma PacedStart(p: nat, first: nat)
    ensures Paced(0, p, first, first, 0)
  {
  }

  lemma PacedNext(f: nat, p: nat, first: nat, next: nat, was: nat, now: nat)
    requires Paced(f, p, first, next, was) && was <= now
    ensures Paced(f, p, first, next, now)
    ensures next <= now ==> Paced(f + 1, p, first, now + p, now)
  {
    assert (f + 1) * p == f * p + p;
  }

  lemma PacedBound(f: nat, p: nat, first: nat, next: nat, now: nat)
    requires p > 0 && Paced(f, p, first, next, now)
    ensures f <= if now < first then 0 else 1 + (now - first) / p
  {
    if f > 0 {
      MulGrows(0, f - 1, p);
      DivisionBound(f - 1, p, now - first);
    }
  }

  lemma {:induction false} PeriodicInv(tables: seq<Table>, ops: seq<Timed>, event: u64, n: nat)
    requires Run(tables, ops) && n <= |ops| && Live(tables[0], event)
    requires forall i :: 0 <= i < n ==> LeavesAlone(ops[i].op, event)
    requires At(tables[0], event).kind.Timer? && At(tables[0], event).period > 0
    requires LastTick(ops, n) + At(tables[0], event).period < WORD
    ensures var s := At(tables[0], event);
            var f := Reported(tables, ops, event, n);
            && Live(tables[n], event)
            && At(tables[n], event).kind.Timer? && At(tables[n], event).period == s.period
            && Paced(f, s.period, s.deadline, At(tables[n], event).deadline, LastTick(ops, n))
  {
    hide Do, Paced;
    if n > 0 {
      PeriodicInv(tables, ops, event, n - 1);
      StepOnEvent(tables[n - 1], ops[n - 1].op, ops[n - 1].now, event);
      StepReports(tables[n - 1], ops[n - 1], event);
      var s := At(tables[0], event);
      PacedNext(Reported(tables, ops, event, n - 1), s.period, s.deadline, At(tables[n - 1], event).deadline,
                LastTick(ops, n - 1), LastTick(ops, n));
    } else {
      PacedStart(At(tables[0], event).period, At(tables[0], event).deadline);
    }
  }

  /**
   * A periodic timer armed with deadline D and period P is reported at most 1 + (now - D) / P times by
   * tick `now`, and not at all before D, as long as the tick count stays a period clear of wrapping.
   */
  lemma PeriodicFirings(tables: seq<Table>, ops: seq<Timed>, event: u64)
    requires Run(tables, ops) && Live(tables[0], event)
    requires forall i :: 0 <= i < |ops| ==> LeavesAlone(ops[i].op, event)
    requires At(tables[0], event).kind.Timer? && At(tables[0], event).period > 0
    requires LastTick(ops, |ops|) + At(tables[0], event).period < WORD
    ensures var s := At(tables[0], event);
            var now := LastTick(ops, |ops|);
            Reported(tables, ops, event, |ops|) <= if now < s.deadline then 0 else 1 + (now - s.deadline) / s.period
  {
    hide Do, Reported, LastTick, Paced;
    PeriodicInv(tables, ops, event, |ops|);
    PacedBound(Reported(tables, ops, event, |ops|), At(tables[0], event).period, At(tables[0], event).deadline,
               At(tables[|ops|], event).deadline, LastTick(ops, |ops|));
  }

  /** After a report a periodic timer is next reported a period on, or at once if its next deadline wraps. */
  lemma RefiresAfterPeriod(t: Table, event: u64, now: u64, later: u64, key: bool)
    requires Live(t, event) && At(t, event).kind.Timer? && At(t, event).period > 0 && now <= later
    requires Do(t, Check(event, key), now).1 == Done(Success)
    ensures Do(Do(t, Check(event, key), now).0, Check(event, key), later).1 == Done(Success)
            <==> later >= now + At(t, event).period || now + At(t, event).period >= 0x1_0000_0000_0000_0000
  {
    StepOnEvent(t, Check(event, key), now, event);
    var s := At(t, event);
    if now + s.period >= WORD {
      assert (now + s.period) % WORD == now + s.period - WORD;
    }
  }

  /** Some step checks `event` at its deadline or later. */
  predicate CheckedAfter(ops: seq<Timed>, event: u64, deadline: u64, n: nat)
    requires n <= |ops|
  {
    exists i :: 0 <= i < n && ops[i].op.Check? && ops[i].op.event == event && ops[i].now >= deadline
  }

  /**
   * A one-shot timer is reported exactly once if it is ever checked at its deadline or later, and
   * otherwise never; but one armed for tick 0 counts as unarmed and is never reported.
   */
  lemma {:induction false} OneShotFirings(tables: seq<Table>, ops: seq<Timed>, event: u64, n: nat)
    requires Run(tables, ops) && n <= |ops| && Live(tables[0], event)
    requires forall i :: 0 <= i < n ==> LeavesAlone(ops[i].op, event)
    requires At(tables[0], event).kind.Timer? && At(tables[0], event).period == 0
    ensures var s := At(tables[0], event);
            var fired := s.deadline > 0 && CheckedAfter(ops, event, s.deadline, n);
            && Live(tables[n], event)
            && At(tables[n], event).kind.Timer? && At(tables[n], event).period == 0
            && At(tables[n], event).deadline == (if fired then 0 else s.deadline)
            && Reported(tables, ops, event, n) == (if fired then 1 else 0)
  {
    hide Do;
    if n > 0 {
      OneShotFirings(tables, ops, event, n - 1);
      StepOnEvent(tables[n - 1], ops[n - 1].op, ops[n - 1].now, event);
      StepReports(tables[n - 1], ops[n - 1], event);
      var s := At(tables[0], event);
      var o := ops[n - 1];
      assert CheckedAfter(ops, event, s.deadline, n) <==>
             CheckedAfter(ops, event, s.deadline, n - 1)
             || (o.op.Check? && o.op.event == event && o.now >= s.deadline);
    }
  }

  /** A generic event is reported at most once per signal (a signal pending at the start counts). */
  lemma {:induction false} GenericReports(tables: seq<Table>, ops: seq<Timed>, event: u64, n: nat)
    requires Run(tables, ops) && n <= |ops| && Live(tables[0], event)
    requires forall i :: 0 <= i < n ==> LeavesAlone(ops[i].op, event)
    requires At(tables[0], event).kind.Generic?
    ensures Live(tables[n], event) && At(tables[n], event).kind.Generic?
    ensures Reported(tables, ops, event, n) + (if At(tables[n], event).signaled then 1 else 0)
            <= Signals(ops, event, n) + (if At(tables[0], event).signaled then 1 else 0)
  {
    hide Do;
    if n > 0 {
      GenericReports(tables, ops, event, n - 1);
      StepOnEvent(tables[n - 1], ops[n - 1].op, ops[n - 1].now, event);
      StepReports(tables[n - 1], ops[n - 1], event);
    }
  }

  /** How many times `event` had the callback `f` made. */
  function Callbacks(notified: seq<Notification>, event: u64, f: nat): nat {
    if notified == [] then 0
    else
      var n := |notified| - 1;
      Callbacks(notified[..n], event, f) + if notified[n] == Notification(event, f) then 1 else 0
  }

  lemma StepCallbacks(t: Table, o: Timed, event: u64, f: nat)
    requires Live(t, event) && At(t, event).notify == Some(f)
    ensures Callbacks(Do(t, o.op, o.now).0.notified, event, f) == Callbacks(t.notified, event, f) +
              if o.op == Signal(event) || (At(t, event).kind.Timer? && Reports(t, o, event)) then 1 else 0
  {
    var t' := Do(t, o.op, o.now).0;
    if t'.notified != t.notified {
      assert t'.notified[..|t.notified|] == t.notified;
    }
  }

  /** An event's own callback is made exactly once for each signal and, if it is a timer, once for each report. */
  lemma {:induction false} CallbacksMatchReports(tables: seq<Table>, ops: seq<Timed>, event: u64, n: nat)
    requires Run(tables, ops) && n <= |ops| && Live(tables[0], event)
    requires forall i :: 0 <= i < n ==> LeavesAlone(ops[i].op, event)
    requires At(tables[0], event).notify.Some?
    ensures var s := At(tables[0], event);
            && Live(tables[n], event)
            && At(tables[n], event).kind == s.kind && At(tables[n], event).notify == s.notify
            && Callbacks(tables[n].notified, event, s.notify.value)
               == Callbacks(tables[0].notified, event, s.notify.value) + Signals(ops, event, n)
                  + if s.kind.Timer? then Reported(tables, ops, event, n) else 0
  {
    hide Do;
    if n > 0 {
      CallbacksMatchReports(tables, ops, event, n - 1);
      StepOnEvent(tables[n - 1], ops[n - 1].op, ops[n - 1].now, event);
      StepCallbacks(tables[n - 1], ops[n - 1], event, At(tables[0], event).notify.value);
    }
  }

  // ---------- creating, arming and closing ----------

  /**
   * A new event takes the first free slot, numbered from one; it is signaled by nobody and, as a timer, not
   * armed. There is none exactly when every slot is taken.
   */
  lemma {:induction false} CreateGives(t: Table, kind: Kind, notify: Option<nat>, now: u64, later: u64)
    requires |t.slots| <= 16
    ensures var (t', r) := Do(t, Create(kind, notify), now);
            && t'.notified == t.notified && |t'.slots| == |t.slots|
            && r.Created?
            && match r.event
               case None => t' == t && forall i :: 0 <= i < |t.slots| ==> t.slots[i].inUse
               case Some(e) =>
                 && 1 <= e <= |t.slots| && !t.slots[e - 1].inUse
                 && (forall i :: 0 <= i < e - 1 ==> t.slots[i].inUse)
                 && (forall i :: 0 <= i < |t.slots| && i != e - 1 ==> t'.slots[i] == t.slots[i])
                 && Live(t', e) && At(t', e).kind == kind && At(t', e).notify == notify
                 && Do(t', Check(e, false), later) == (t', Done(NotReady))
  {
  }

  /** Closing frees that event's slot alone; an event that is not in use is refused by every operation on it. */
  lemma {:induction false} CloseFrees(t: Table, event: u64, now: u64, later: u64, op: Op)
    requires op.Close? || op.SetTimer? || op.Signal? || op.Check?
    requires op.event == event
    ensures var (t', r) := Do(t, Close(event), now);
            && !Live(t', event) && t'.notified == t.notified && |t'.slots| == |t.slots|
            && (forall i :: 0 <= i < |t.slots| && i != event - 1 ==> t'.slots[i] == t.slots[i])
            && (r == Done(Success) <==> Live(t, event))
            && Do(t', op, later) == (t', Done(InvalidParameter))
  {
  }

  /** Arming touches the deadline and period of that event alone. */
  lemma {:induction false} SetTimerFrame(t: Table, event: u64, timerType: u32, ticks: u64, now: u64)
    requires Live(t, event)
    ensures var (t', r) := Do(t, SetTimer(event, timerType, ticks), now);
            && r == Done(Success) && t'.notified == t.notified && |t'.slots| == |t.slots| && Live(t', event)
            && (forall i :: 0 <= i < |t.slots| && i != event - 1 ==> t'.slots[i] == t.slots[i])
            && At(t', event) == At(t, event).(deadline := At(t', event).deadline, period := At(t', event).period)
  {
  }

  /**
   * A one-shot timer armed at `now` for `ticks` is reported once if checked at `now + ticks` or later, and never
   * before; a cancelled timer is never reported.
   */
  lemma {:induction false} ArmedOneShot(
    t: Table, event: u64, timerType: u32, ticks: u64, now: u64, tables: seq<Table>, ops: seq<Timed>)
    requires Live(t, event) && At(t, event).kind.Timer? && timerType != 1 && 0 < now + ticks < 0x1_0000_0000_0000_0000
    requires Run(tables, ops) && tables[0] == Do(t, SetTimer(event, timerType, ticks), now).0
    requires forall i :: 0 <= i < |ops| ==> LeavesAlone(ops[i].op, event)
    ensures Reported(tables, ops, event, |ops|) ==
            if timerType != 0 && CheckedAfter(ops, event, now + ticks, |ops|) then 1 else 0
  {
    hide Reported, CheckedAfter;
    OneShotFirings(tables, ops, event, |ops|);
  }

  /**
   * A periodic timer armed at `now` for `ticks` is not reported before `now + ticks`, is reported if checked from
   * then on, and no more often than once a period, a period being at least one tick.
   */
  lemma {:induction false} ArmedPeriodic(
    t: Table, event: u64, ticks: u64, now: u64, tables: seq<Table>, ops: seq<Timed>)
    requires Live(t, event) && At(t, event).kind.Timer?
    requires Run(tables, ops) && tables[0] == Do(t, SetTimer(event, 1, ticks), now).0
    requires forall i :: 0 <= i < |ops| ==> LeavesAlone(ops[i].op, event)
    requires now + ticks < 0x1_0000_0000_0000_0000
    requires LastTick(ops, |ops|) + ticks + 1 < 0x1_0000_0000_0000_0000
    ensures var first, period, last := now + ticks, if ticks > 1 then ticks else 1, LastTick(ops, |ops|);
            && Reported(tables, ops, event, |ops|) <= (if last < first then 0 else 1 + (last - first) / period)
            && (Reported(tables, ops, event, |ops|) > 0 <==> CheckedAfter(ops, event, first, |ops|))
  {
    hide Reported, CheckedAfter, LastTick;
    PeriodicFirings(tables, ops, event);
    PeriodicStarts(tables, ops, event, |ops|);
  }

  lemma {:induction false} PeriodicStarts(tables: seq<Table>, ops: seq<Timed>, event: u64, n: nat)
    requires Run(tables, ops) && n <= |ops| && Live(tables[0], event)
    requires forall i :: 0 <= i < n ==> LeavesAlone(ops[i].op, event)
    requires At(tables[0], event).kind.Timer? && At(tables[0], event).period > 0
    ensures var s := At(tables[0], event);
            && Live(tables[n], event) && At(tables[n], event).kind.Timer? && At(tables[n], event).period == s.period
            && (Reported(tables, ops, event, n) > 0 <==> CheckedAfter(ops, event, s.deadline, n))
            && (Reported(tables, ops, event, n) == 0 ==> At(tables[n], event).deadline == s.deadline)
  {
    hide Do;
    if n > 0 {
      PeriodicStarts(tables, ops, event, n - 1);
      StepOnEvent(tables[n - 1], ops[n - 1].op, ops[n - 1].now, event);
      StepReports(tables[n - 1], ops[n - 1], event);
      var s := At(tables[0], event);
      var o := ops[n - 1];
      assert CheckedAfter(ops, event, s.deadline, n) <==>
             CheckedAfter(ops, event, s.deadline, n - 1)
             || (o.op.Check? && o.op.event == event && o.now >= s.deadline);
    }
  }
}
