/**
 * The door's status state machine: SpaceStatus and its SpaceState enum.
 * The pure part (SpaceState, Step) says what each operation does; the
 * SpaceStatus class holds the state field and the event table it logs to.
 */
module SpaceStatus {
  import opened Wrappers
  import opened Events
  import opened EventStore

  /** The four states, each a (locked, overridden) flag pair. */
  datatype SpaceState = OPEN | LOCKED | OPEN_OVERRIDDEN | LOCKED_OVERRIDDEN {

    predicate IsLocked() {
      this == LOCKED || this == LOCKED_OVERRIDDEN
    }

    predicate IsOverridden() {
      this == OPEN_OVERRIDDEN || this == LOCKED_OVERRIDDEN
    }

    /** The non-overridden state with the same locked-ness. */
    function ClearOverride(): (r: SpaceState)
      ensures !r.IsOverridden() && r.IsLocked() == IsLocked()
    {
      if IsLocked() then LOCKED else SpaceState.OPEN
    }

    /** The overridden state with the same locked-ness. */
    function Override(): (r: SpaceState)
      ensures r.IsOverridden() && r.IsLocked() == IsLocked()
    {
      if IsLocked() then LOCKED_OVERRIDDEN else OPEN_OVERRIDDEN
    }
  }

  /** The non-overridden state that a sensor reading stands for. */
  function FromSensor(locked: bool): (r: SpaceState)
    ensures !r.IsOverridden() && r.IsLocked() == locked
  {
    if locked then LOCKED else SpaceState.OPEN
  }

  /** The two flags determine the state: the enum has no two constants with the same pair. */
  lemma FlagsDetermineState(s: SpaceState, t: SpaceState)
    requires s.IsLocked() == t.IsLocked() && s.IsOverridden() == t.IsOverridden()
    ensures s == t
  {
  }

  /** Clearing undoes overriding and overriding undoes clearing. */
  lemma OverrideRoundTrip(s: SpaceState)
    ensures s.Override().ClearOverride() == s.ClearOverride()
    ensures s.IsOverridden() ==> s.ClearOverride().Override() == s
    ensures !s.IsOverridden() ==> s.Override().ClearOverride() == s && FromSensor(s.IsLocked()) == s
  {
  }

  /**
   * The state the constructor starts in, given the latest logged event:
   * LOCKED when there is none or it is a LOCK, OPEN for any other kind.
   */
  function InitialState(last: Option<Event>): (s: SpaceState)
    ensures !s.IsOverridden()
    ensures s.IsLocked() <==> last.None? || last.value.eventType == LOCK
  {
    FromSensor(last.None? || last.value.eventType == LOCK)
  }

  /** The requests the state machine serves, one per public SpaceStatus method. */
  datatype Command =
    | Sensor(sensorShowsLocked: bool)     // handleSensorStateChange
    | ManualOpen                          // manualOpen
    | ManualLock                          // manualLock
    | OverrideOpen                        // overrideOpen
    | OverrideLock                        // overrideLock
    | Clear(sensorLocked: bool)           // clearOverride

  /** What a method hands back: nothing (void), a boolean, or an exception. */
  datatype Reply = Done | Returned(b: bool) | Threw(error: Error)

  /** A transition: the reply, the next state and the kind of the one event logged, if any. */
  datatype Outcome = Outcome(reply: Reply, next: SpaceState, logged: Option<EventType>)

  /** One call of the state machine on state s. */
  function Step(s: SpaceState, c: Command): Outcome {
    match c
    case Sensor(v) =>
      if s.IsOverridden() then Outcome(Done, s.ClearOverride(), None)
      else if s.IsLocked() == v then Outcome(Done, s, None)
      else Outcome(Done, FromSensor(v), Some(if v then LOCK else EventType.OPEN))
    case ManualOpen =>
      if !s.IsLocked() then Outcome(Returned(false), s, None)
      else Outcome(Returned(true), SpaceState.OPEN, Some(EventType.OPEN))
    case ManualLock =>
      if s.IsLocked() then Outcome(Returned(false), s, None)
      else Outcome(Returned(true), LOCKED, Some(LOCK))
    case OverrideOpen =>
      if s != SpaceState.OPEN then Outcome(Threw(IllegalState), s, None)
      else Outcome(Returned(true), OPEN_OVERRIDDEN, Some(OVERRIDE_OPEN))
    case OverrideLock =>
      if s != LOCKED then Outcome(Threw(IllegalState), s, None)
      else Outcome(Returned(true), LOCKED_OVERRIDDEN, Some(OVERRIDE_LOCK))
    case Clear(v) =>
      if !s.IsOverridden() then Outcome(Returned(false), s, None)
      else Outcome(Returned(true), FromSensor(v), Some(CLEAR_OVERRIDE))
  }

  /**
   * A sensor change while overridden ends the override, keeps the locked-ness,
   * logs nothing, and does not depend on the sensor value.
   */
  lemma SensorWhileOverridden(s: SpaceState, v: bool)
    requires s.IsOverridden()
    ensures Step(s, Sensor(v)) == Step(s, Sensor(!v))
    ensures Step(s, Sensor(v)).next.IsLocked() == s.IsLocked()
    ensures !Step(s, Sensor(v)).next.IsOverridden()
    ensures Step(s, Sensor(v)).logged.None?
  {
  }

  /**
   * Without an override a sensor change is ignored when the locked-ness
   * already agrees, and otherwise follows the sensor and logs LOCK or OPEN.
   */
  lemma SensorWithoutOverride(s: SpaceState, v: bool)
    requires !s.IsOverridden()
    ensures s.IsLocked() == v ==> Step(s, Sensor(v)).next == s && Step(s, Sensor(v)).logged.None?
    ensures s.IsLocked() != v ==> Step(s, Sensor(v)).next == FromSensor(v)
    ensures s.IsLocked() != v ==> Step(s, Sensor(v)).logged == Some(if v then LOCK else EventType.OPEN)
    ensures Step(s, Sensor(v)).next.IsLocked() == v
  {
  }

  /** manualOpen succeeds exactly from a locked state, and then leaves the space OPEN with one OPEN logged. */
  lemma ManualOpenSpec(s: SpaceState)
    ensures Step(s, ManualOpen).reply == Returned(s.IsLocked())
    ensures !s.IsLocked() ==> Step(s, ManualOpen).next == s && Step(s, ManualOpen).logged.None?
    ensures s.IsLocked() ==> Step(s, ManualOpen).next == SpaceState.OPEN && Step(s, ManualOpen).logged == Some(EventType.OPEN)
  {
  }

  /** manualLock mirrors manualOpen. */
  lemma ManualLockSpec(s: SpaceState)
    ensures Step(s, ManualLock).reply == Returned(!s.IsLocked())
    ensures s.IsLocked() ==> Step(s, ManualLock).next == s && Step(s, ManualLock).logged.None?
    ensures !s.IsLocked() ==> Step(s, ManualLock).next == LOCKED && Step(s, ManualLock).logged == Some(LOCK)
  {
  }

  /** overrideOpen / overrideLock never return false: they succeed from the one matching state or throw. */
  lemma OverrideNeverFalse(s: SpaceState)
    ensures Step(s, OverrideOpen).reply != Returned(false)
    ensures Step(s, OverrideLock).reply != Returned(false)
    ensures Step(s, OverrideOpen).reply == Returned(true) <==> s == SpaceState.OPEN
    ensures Step(s, OverrideLock).reply == Returned(true) <==> s == LOCKED
    ensures Step(s, OverrideOpen).reply.Threw? ==> Step(s, OverrideOpen).next == s && Step(s, OverrideOpen).logged.None?
    ensures Step(s, OverrideLock).reply.Threw? ==> Step(s, OverrideLock).next == s && Step(s, OverrideLock).logged.None?
  {
  }

  /** clearOverride resolves to the live sensor reading, whichever override was active. */
  lemma ClearFollowsSensor(s: SpaceState, t: SpaceState, v: bool)
    requires s.IsOverridden() && t.IsOverridden()
    ensures Step(s, Clear(v)) == Step(t, Clear(v))
    ensures Step(s, Clear(v)).next == FromSensor(v) && Step(s, Clear(v)).logged == Some(CLEAR_OVERRIDE)
  {
  }

  /** Locked-ness changes only together with a logged OPEN, LOCK or CLEAR_OVERRIDE, or by the sensor ending an override. */
  lemma LockedChangesOnlyWithBoundary(s: SpaceState, c: Command)
    requires Step(s, c).next.IsLocked() != s.IsLocked()
    ensures Step(s, c).logged in {Some(EventType.OPEN), Some(LOCK), Some(CLEAR_OVERRIDE)}
  {
  }

  /**
   * The command layer's "manual, else override" (OpenCommand / LockCommand):
   * when the manual call declines, the override call either succeeds or
   * throws, so their "override already active" reply is unreachable.
   */
  lemma CommandFallbackNeverDeclined(s: SpaceState)
    ensures Step(s, ManualOpen).reply == Returned(false) ==> Step(s, OverrideOpen).reply != Returned(false)
    ensures Step(s, ManualLock).reply == Returned(false) ==> Step(s, OverrideLock).reply != Returned(false)
    ensures Step(s, ManualOpen).reply == Returned(false) ==> (Step(s, OverrideOpen).reply == Returned(true) <==> s == SpaceState.OPEN)
  {
  }

  // ---------------------------------------------------------------------
  // Alternation of OPEN and LOCK in the log.

  predicate IsBoundary(t: EventType) {
    t == EventType.OPEN || t == LOCK || t == CLEAR_OVERRIDE
  }

  /** Two OPENs always have a LOCK or CLEAR_OVERRIDE between them, and two LOCKs an OPEN or CLEAR_OVERRIDE. */
  ghost predicate Separated(log: seq<EventType>) {
    forall i, j :: 0 <= i < j < |log| && log[i] == log[j] && (log[i] == EventType.OPEN || log[i] == LOCK) ==>
      exists k :: i < k < j && IsBoundary(log[k]) && log[k] != log[i]
  }

  /** The last OPEN, LOCK or CLEAR_OVERRIDE of the log, if any. */
  function LastBoundary(log: seq<EventType>): (r: Option<nat>)
    ensures r.Some? ==> r.value < |log| && IsBoundary(log[r.value])
    ensures r.Some? ==> forall k :: r.value < k < |log| ==> !IsBoundary(log[k])
    ensures r.None? ==> forall k :: 0 <= k < |log| ==> !IsBoundary(log[k])
  {
    if log == [] then None
    else if IsBoundary(log[|log| - 1]) then Some(|log| - 1)
    else LastBoundary(log[..|log| - 1])
  }

  /** The locked-ness agrees with the last OPEN or LOCK unless a CLEAR_OVERRIDE came after it. */
  predicate Consistent(log: seq<EventType>, s: SpaceState) {
    var b := LastBoundary(log);
    (b.Some? && log[b.value] == EventType.OPEN ==> !s.IsLocked())
    && (b.Some? && log[b.value] == LOCK ==> s.IsLocked())
  }

  function LogOf(o: Option<EventType>): seq<EventType> {
    if o.Some? then [o.value] else []
  }

  /** Every step keeps the consistency, and it only logs OPEN (LOCK) when the last boundary is not OPEN (LOCK). */
  lemma StepKeepsConsistent(log: seq<EventType>, s: SpaceState, c: Command)
    requires Consistent(log, s)
    ensures Consistent(log + LogOf(Step(s, c).logged), Step(s, c).next)
    ensures var b := LastBoundary(log);
      Step(s, c).logged.Some? && Step(s, c).logged.value in {EventType.OPEN, LOCK} ==>
        b.None? || log[b.value] != Step(s, c).logged.value
  {
    var o := Step(s, c);
    var log' := log + LogOf(o.logged);
    if o.logged.Some? {
      assert log'[..|log|] == log;
      if !IsBoundary(o.logged.value) {
        assert LastBoundary(log') == LastBoundary(log);
      }
    } else {
      assert log' == log;
    }
  }

  /** Appending an OPEN or LOCK that differs from the last boundary keeps the log separated. */
  lemma AppendKeepsSeparated(log: seq<EventType>, e: EventType)
    requires Separated(log)
    requires e in {EventType.OPEN, LOCK} ==> LastBoundary(log).None? || log[LastBoundary(log).value] != e
    ensures Separated(log + [e])
  {
    var log' := log + [e];
    forall i, j | 0 <= i < j < |log'| && log'[i] == log'[j] && (log'[i] == EventType.OPEN || log'[i] == LOCK)
      ensures exists k :: i < k < j && IsBoundary(log'[k]) && log'[k] != log'[i]
    {
      if j < |log| {
        SeparatedInPrefix(log, e, i, j);
      } else {
        SeparatedAtEnd(log, e, i);
      }
    }
  }

  /** Two equal kinds both in the old log keep the boundary between them. */
  lemma SeparatedInPrefix(log: seq<EventType>, e: EventType, i: int, j: int)
    requires Separated(log) && 0 <= i < j < |log| && log[i] == log[j] && (log[i] == EventType.OPEN || log[i] == LOCK)
    ensures exists k :: i < k < j && IsBoundary((log + [e])[k]) && (log + [e])[k] != (log + [e])[i]
  {
    var k :| i < k < j && IsBoundary(log[k]) && log[k] != log[i];
    assert (log + [e])[k] == log[k] && (log + [e])[i] == log[i];
  }

  /** The appended kind is separated from an equal earlier one by the last boundary, which differs from it. */
  lemma SeparatedAtEnd(log: seq<EventType>, e: EventType, i: int)
    requires e in {EventType.OPEN, LOCK} ==> LastBoundary(log).None? || log[LastBoundary(log).value] != e
    requires 0 <= i < |log| && log[i] == e && (e == EventType.OPEN || e == LOCK)
    ensures exists k :: i < k < |log| && IsBoundary((log + [e])[k]) && (log + [e])[k] != (log + [e])[i]
  {
    var b := LastBoundary(log);
    assert IsBoundary(log[i]);
    assert b.Some? && i <= b.value;
    var k := b.value;
    assert (log + [e])[k] == log[k] && (log + [e])[i] == log[i];
  }

  /** A run of commands: the final state and the kinds of the events logged, in order. */
  function Run(s: SpaceState, cmds: seq<Command>): (SpaceState, seq<EventType>) {
    if cmds == [] then (s, [])
    else
      var (s', log) := Run(s, cmds[..|cmds| - 1]);
      var o := Step(s', cmds[|cmds| - 1]);
      (o.next, log + LogOf(o.logged))
  }

  /**
   * Whatever requests arrive and from whatever state an instance starts, the
   * events it logs never hold two OPENs without a LOCK or CLEAR_OVERRIDE
   * between them, nor two LOCKs without an OPEN or CLEAR_OVERRIDE between them.
   */
  lemma {:induction false} RunAlternates(s: SpaceState, cmds: seq<Command>)
    ensures Consistent(Run(s, cmds).1, Run(s, cmds).0)
    ensures Separated(Run(s, cmds).1)
  {
    if cmds != [] {
      RunAlternates(s, cmds[..|cmds| - 1]);
      var (s', log) := Run(s, cmds[..|cmds| - 1]);
      var c := cmds[|cmds| - 1];
      StepKeepsConsistent(log, s', c);
      var o := Step(s', c);
      if o.logged.Some? {
        AppendKeepsSeparated(log, o.logged.value);
      } else {
        assert log + LogOf(o.logged) == log;
      }
    }
  }

  /** The row logEvent stores for a logged kind when the insert succeeds. */
  function StoredRows(logged: Option<EventType>, timestamp: int, userID: int, id: int, insertOk: bool): seq<Row> {
    if logged.Some? && insertOk then [Row(id, Event(timestamp, logged.value, userID))] else []
  }

  /** SpaceStatus: the one authoritative state and the event table it appends to. */
  class SpaceStatus {
    var state: SpaceState
    const store: Store
    /** The kinds of every event this instance handed to logEvent, stored or not. */
    ghost var issued: seq<EventType>

    ghost predicate Valid()
      reads this, store
    {
      store.Valid() && Consistent(issued, state) && Separated(issued)
    }

    /** The constructor: the state follows the latest logged event and is never overridden. */
    constructor (store: Store)
      requires store.Valid()
      ensures Valid() && this.store == store && issued == []
      ensures state == InitialState(store.GetLastEvent(0))
    {
      this.store := store;
      state := InitialState(store.GetLastEvent(0));
      issued := [];
    }

    /** isSpaceLocked. */
    function IsSpaceLocked(): bool
      reads this
    {
      state.IsLocked()
    }

    /** getState. */
    function GetState(): SpaceState
      reads this
    {
      state
    }

    /** Applies one request: the new state is Step's, and its event (if any) is logged with the given time and user. */
    method Apply(c: Command, timestamp: int, userID: int, insertOk: bool) returns (reply: Reply)
      requires Valid()
      modifies this, store
      ensures Valid()
      ensures reply == Step(old(state), c).reply && state == Step(old(state), c).next
      ensures issued == old(issued) + LogOf(Step(old(state), c).logged)
      ensures store.rows == old(store.rows) + StoredRows(Step(old(state), c).logged, timestamp, userID, old(store.nextId), insertOk)
      ensures store.nextId == old(store.nextId) + |StoredRows(Step(old(state), c).logged, timestamp, userID, old(store.nextId), insertOk)|
    {
      var o := Step(state, c);
      StepKeepsConsistent(issued, state, c);
      if o.logged.Some? {
        AppendKeepsSeparated(issued, o.logged.value);
        var id := store.LogEvent(Event(timestamp, o.logged.value, userID), insertOk);
      } else {
        assert issued + LogOf(o.logged) == issued;
      }
      state := o.next;
      issued := issued + LogOf(o.logged);
      reply := o.reply;
    }

    /** handleSensorStateChange(sensorShowsLocked, timestamp, userID). */
    method HandleSensorStateChange(sensorShowsLocked: bool, timestamp: int, userID: int, insertOk: bool)
      requires Valid()
      modifies this, store
      ensures Valid()
      ensures state == Step(old(state), Sensor(sensorShowsLocked)).next
      ensures issued == old(issued) + LogOf(Step(old(state), Sensor(sensorShowsLocked)).logged)
      ensures store.rows == old(store.rows) +
        StoredRows(Step(old(state), Sensor(sensorShowsLocked)).logged, timestamp, userID, old(store.nextId), insertOk)
      ensures store.nextId == old(store.nextId) + |StoredRows(Step(old(state), Sensor(sensorShowsLocked)).logged, timestamp, userID, old(store.nextId), insertOk)|
    {
      var _ := Apply(Sensor(sensorShowsLocked), timestamp, userID, insertOk);
    }

    /** manualOpen(userID): the clock reading is the parameter now. */
    method ManualOpen(userID: int, now: int, insertOk: bool) returns (didOpen: bool)
      requires Valid()
      modifies this, store
      ensures Valid()
      ensures didOpen == old(state).IsLocked()
      ensures state == Step(old(state), Command.ManualOpen).next
      ensures issued == old(issued) + LogOf(Step(old(state), Command.ManualOpen).logged)
      ensures store.rows == old(store.rows) +
        StoredRows(Step(old(state), Command.ManualOpen).logged, now, userID, old(store.nextId), insertOk)
      ensures store.nextId == old(store.nextId) + |StoredRows(Step(old(state), Command.ManualOpen).logged, now, userID, old(store.nextId), insertOk)|
    {
      var reply := Apply(Command.ManualOpen, now, userID, insertOk);
      didOpen := reply.b;
    }

    /** manualLock(userID). */
    method ManualLock(userID: int, now: int, insertOk: bool) returns (locked: bool)
      requires Valid()
      modifies this, store
      ensures Valid()
      ensures locked == !old(state).IsLocked()
      ensures state == Step(old(state), Command.ManualLock).next
      ensures issued == old(issued) + LogOf(Step(old(state), Command.ManualLock).logged)
      ensures store.rows == old(store.rows) +
        StoredRows(Step(old(state), Command.ManualLock).logged, now, userID, old(store.nextId), insertOk)
      ensures store.nextId == old(store.nextId) + |StoredRows(Step(old(state), Command.ManualLock).logged, now, userID, old(store.nextId), insertOk)|
    {
      var reply := Apply(Command.ManualLock, now, userID, insertOk);
      locked := reply.b;
    }

    /** overrideOpen(userID): true from OPEN, IllegalStateException from any other state. */
    method OverrideOpen(userID: int, now: int, insertOk: bool) returns (r: Result<bool>)
      requires Valid()
      modifies this, store
      ensures Valid()
      ensures r == (if old(state) == SpaceState.OPEN then Success(true) else Failure(IllegalState))
      ensures state == Step(old(state), Command.OverrideOpen).next
      ensures issued == old(issued) + LogOf(Step(old(state), Command.OverrideOpen).logged)
      ensures store.rows == old(store.rows) +
        StoredRows(Step(old(state), Command.OverrideOpen).logged, now, userID, old(store.nextId), insertOk)
      ensures store.nextId == old(store.nextId) + |StoredRows(Step(old(state), Command.OverrideOpen).logged, now, userID, old(store.nextId), insertOk)|
    {
      var reply := Apply(Command.OverrideOpen, now, userID, insertOk);
      r := if reply.Threw? then Failure(reply.error) else Success(true);
    }

    /** overrideLock(userID): true from LOCKED, IllegalStateException from any other state. */
    method OverrideLock(userID: int, now: int, insertOk: bool) returns (r: Result<bool>)
      requires Valid()
      modifies this, store
      ensures Valid()
      ensures r == (if old(state) == LOCKED then Success(true) else Failure(IllegalState))
      ensures state == Step(old(state), Command.OverrideLock).next
      ensures issued == old(issued) + LogOf(Step(old(state), Command.OverrideLock).logged)
      ensures store.rows == old(store.rows) +
        StoredRows(Step(old(state), Command.OverrideLock).logged, now, userID, old(store.nextId), insertOk)
      ensures store.nextId == old(store.nextId) + |StoredRows(Step(old(state), Command.OverrideLock).logged, now, userID, old(store.nextId), insertOk)|
    {
      var reply := Apply(Command.OverrideLock, now, userID, insertOk);
      r := if reply.Threw? then Failure(reply.error) else Success(true);
    }

    /** clearOverride(userID, sensorLocked). */
    method ClearOverride(userID: int, sensorLocked: bool, now: int, insertOk: bool) returns (cleared: bool)
      requires Valid()
      modifies this, store
      ensures Valid()
      ensures cleared == old(state).IsOverridden()
      ensures state == Step(old(state), Clear(sensorLocked)).next
      ensures issued == old(issued) + LogOf(Step(old(state), Clear(sensorLocked)).logged)
      ensures store.rows == old(store.rows) +
        StoredRows(Step(old(state), Clear(sensorLocked)).logged, now, userID, old(store.nextId), insertOk)
      ensures store.nextId == old(store.nextId) + |StoredRows(Step(old(state), Clear(sensorLocked)).logged, now, userID, old(store.nextId), insertOk)|
    {
      var reply := Apply(Clear(sensorLocked), now, userID, insertOk);
      cleared := reply.b;
    }
  }

  /** What the /open and /lock commands report to the member. */
  datatype CommandReply = Manual | OverrideActivated | OverrideAlreadyActive | CommandThrew(error: Error)

  /** OpenCommand.execute: manualOpen, and when that declines, overrideOpen. */
  method OpenCommand(status: SpaceStatus, userID: int, now: int, insertOk: bool) returns (reply: CommandReply)
    requires status.Valid()
    modifies status, status.store
    ensures status.Valid()
    ensures reply != OverrideAlreadyActive
    ensures old(status.state).IsLocked() <==> reply == Manual
    ensures reply == OverrideActivated <==> old(status.state) == SpaceState.OPEN
    ensures old(status.state) == OPEN_OVERRIDDEN ==> reply == CommandThrew(IllegalState)
    ensures var c := if old(status.state).IsLocked() then Command.ManualOpen else Command.OverrideOpen;
      && status.state == Step(old(status.state), c).next
      && status.issued == old(status.issued) + LogOf(Step(old(status.state), c).logged)
      && status.store.rows == old(status.store.rows) +
           StoredRows(Step(old(status.state), c).logged, now, userID, old(status.store.nextId), insertOk)
      && status.store.nextId == old(status.store.nextId) +
           |StoredRows(Step(old(status.state), c).logged, now, userID, old(status.store.nextId), insertOk)|
  {
    var didOpen := status.ManualOpen(userID, now, insertOk);
    if didOpen {
      reply := Manual;
    } else {
      var r := status.OverrideOpen(userID, now, insertOk);
      reply := if r.Failure? then CommandThrew(r.error) else if r.value then OverrideActivated else OverrideAlreadyActive;
    }
  }

  /** LockCommand.execute: manualLock, and when that declines, overrideLock. */
  method LockCommand(status: SpaceStatus, userID: int, now: int, insertOk: bool) returns (reply: CommandReply)
    requires status.Valid()
    modifies status, status.store
    ensures status.Valid()
    ensures reply != OverrideAlreadyActive
    ensures !old(status.state).IsLocked() <==> reply == Manual
    ensures reply == OverrideActivated <==> old(status.state) == LOCKED
    ensures old(status.state) == LOCKED_OVERRIDDEN ==> reply == CommandThrew(IllegalState)
    ensures var c := if !old(status.state).IsLocked() then Command.ManualLock else Command.OverrideLock;
      && status.state == Step(old(status.state), c).next
      && status.issued == old(status.issued) + LogOf(Step(old(status.state), c).logged)
      && status.store.rows == old(status.store.rows) +
           StoredRows(Step(old(status.state), c).logged, now, userID, old(status.store.nextId), insertOk)
      && status.store.nextId == old(status.store.nextId) +
           |StoredRows(Step(old(status.state), c).logged, now, userID, old(status.store.nextId), insertOk)|
  {
    var locked := status.ManualLock(userID, now, insertOk);
    if locked {
      reply := Manual;
    } else {
      var r := status.OverrideLock(userID, now, insertOk);
      reply := if r.Failure? then CommandThrew(r.error) else if r.value then OverrideActivated else OverrideAlreadyActive;
    }
  }

  /** After a restart whose latest event is OVERRIDE_LOCK the state starts OPEN, not LOCKED. */
  lemma RestartAfterLockOverrideIsOpen(id: int, t: int, u: int)
    ensures InitialState(Some(Event(t, OVERRIDE_LOCK, u))) == SpaceState.OPEN
  {
  }
}
