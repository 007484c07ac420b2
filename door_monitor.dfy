/**
 * The Raspberry Pi door sensor monitor (pi/DoorMonitor): the debounce step run
 * once per second and the report filter between it and the state machine.
 * The GPIO pin level of each tick is a parameter (true = high).
 */
module DoorMonitor {
  import opened Wrappers
  import SpaceStatus
  import EventStore
  import Events

  /** The debounce variables of the monitor thread: lastReadState and debounceCounter. */
  datatype Debounce = Debounce(lastRead: bool, counter: int)

  /** One tick's result: the new debounce variables and the reading reported, if any. */
  datatype Tick = Tick(next: Debounce, report: Option<bool>)

  /** One iteration of the monitor loop on the (already inverted) reading r. */
  function TickStep(d: Debounce, threshold: int, r: bool): Tick {
    var d' := if r == d.lastRead then Debounce(d.lastRead, d.counter + 1) else Debounce(r, 0);
    if d'.counter >= threshold then Tick(Debounce(d'.lastRead, 0), Some(r))
    else Tick(d', None)
  }

  /** The reading a tick takes from the pin: the inverted level. */
  function Reading(pinHigh: bool): bool {
    !pinHigh
  }

  /** The debounce variables right after setup: the raw pin level and a zero counter. */
  function InitialDebounce(pinHigh: bool): Debounce {
    Debounce(pinHigh, 0)
  }

  /**
   * After a tick the last read is the tick's reading; a report carries that
   * reading; and with a positive threshold the counter stays in [0, threshold).
   */
  lemma TickBounds(d: Debounce, threshold: int, r: bool)
    requires d.counter >= 0
    ensures TickStep(d, threshold, r).next.lastRead == r
    ensures TickStep(d, threshold, r).report.Some? ==> TickStep(d, threshold, r).report.value == r
    ensures TickStep(d, threshold, r).next.counter >= 0
    ensures threshold >= 1 ==> TickStep(d, threshold, r).next.counter < threshold
  {
  }

  /** With a positive threshold a reading that differs from the last one only resets the counter. */
  lemma MismatchNeverReports(d: Debounce, threshold: int, r: bool)
    requires threshold >= 1 && r != d.lastRead
    ensures TickStep(d, threshold, r) == Tick(Debounce(r, 0), None)
  {
  }

  /** A matching reading reports exactly when the incremented counter reaches the threshold. */
  lemma MatchReportsAtThreshold(d: Debounce, threshold: int, r: bool)
    requires r == d.lastRead
    ensures TickStep(d, threshold, r).report.Some? <==> d.counter + 1 >= threshold
    ensures TickStep(d, threshold, r).report.None? ==> TickStep(d, threshold, r).next == Debounce(r, d.counter + 1)
    ensures TickStep(d, threshold, r).report.Some? ==> TickStep(d, threshold, r).next == Debounce(r, 0)
  {
  }

  /** The first tick after setup with an unchanged pin always mismatches and resets the counter. */
  lemma FirstTickMismatches(pinHigh: bool, threshold: int)
    requires threshold >= 1
    ensures TickStep(InitialDebounce(pinHigh), threshold, Reading(pinHigh)) == Tick(Debounce(!pinHigh, 0), None)
  {
  }

  /** A sequence of ticks: the final debounce variables and the report (or none) of each tick. */
  function Ticks(d: Debounce, threshold: int, readings: seq<bool>): (Debounce, seq<Option<bool>>) {
    if readings == [] then (d, [])
    else
      var (d', reports) := Ticks(d, threshold, readings[..|readings| - 1]);
      var t := TickStep(d', threshold, readings[|readings| - 1]);
      (t.next, reports + [t.report])
  }

  /** Ticks over readings with one more at the end is one more TickStep. */
  lemma TicksSnoc(d: Debounce, threshold: int, pre: seq<bool>, r: bool)
    ensures Ticks(d, threshold, pre + [r]) ==
      (TickStep(Ticks(d, threshold, pre).0, threshold, r).next,
       Ticks(d, threshold, pre).1 + [TickStep(Ticks(d, threshold, pre).0, threshold, r).report])
  {
    assert (pre + [r])[..|pre|] == pre;
  }

  lemma {:induction false} TicksLength(d: Debounce, threshold: int, readings: seq<bool>)
    ensures |Ticks(d, threshold, readings).1| == |readings|
  {
    if readings != [] {
      TicksLength(d, threshold, readings[..|readings| - 1]);
    }
  }

  /** Ticking through a then b is ticking through a, then through b from where a left off. */
  lemma {:induction false} TicksAppend(d: Debounce, threshold: int, a: seq<bool>, b: seq<bool>)
    ensures Ticks(d, threshold, a + b) ==
      (Ticks(Ticks(d, threshold, a).0, threshold, b).0,
       Ticks(d, threshold, a).1 + Ticks(Ticks(d, threshold, a).0, threshold, b).1)
  {
    if b == [] {
      assert a + b == a;
      assert Ticks(d, threshold, a).1 + Ticks(Ticks(d, threshold, a).0, threshold, b).1 == Ticks(d, threshold, a).1;
    } else {
      var b' := b[..|b| - 1];
      TicksAppend(d, threshold, a, b');
      assert (a + b)[..|a + b| - 1] == a + b';
      assert (Ticks(d, threshold, a).1 + Ticks(Ticks(d, threshold, a).0, threshold, b').1) + [TickStep(Ticks(d, threshold, a + b').0, threshold, b[|b| - 1]).report]
        == Ticks(d, threshold, a).1 + (Ticks(Ticks(d, threshold, a).0, threshold, b').1 + [TickStep(Ticks(d, threshold, a + b').0, threshold, b[|b| - 1]).report]);
    }
  }

  /** What holds after any number of ticks: the last counter readings all equal the last read. */
  ghost predicate Stable(readings: seq<bool>, d: Debounce) {
    0 <= d.counter <= |readings| &&
    forall j :: |readings| - d.counter <= j < |readings| ==> readings[j] == d.lastRead
  }

  lemma {:induction false} TicksStable(d: Debounce, threshold: int, readings: seq<bool>)
    requires d.counter == 0
    ensures Stable(readings, Ticks(d, threshold, readings).0)
  {
    if readings != [] {
      var pre := readings[..|readings| - 1];
      TicksStable(d, threshold, pre);
      var (d', _) := Ticks(d, threshold, pre);
      var r := readings[|readings| - 1];
      var t := TickStep(d', threshold, r);
      if r == d'.lastRead && t.report.None? {
        forall j | |readings| - t.next.counter <= j < |readings|
          ensures readings[j] == t.next.lastRead
        {
          if j < |pre| {
            assert readings[j] == pre[j];
          }
        }
      }
    }
  }

  /**
   * A report of v at tick i (counting from 0, starting from a zero counter)
   * needs the threshold readings ending at tick i to all be v.
   */
  lemma {:induction false} ReportNeedsStableReadings(d: Debounce, threshold: int, readings: seq<bool>, i: nat)
    requires d.counter == 0
    requires i < |readings|
    ensures |Ticks(d, threshold, readings).1| == |readings|
    ensures Ticks(d, threshold, readings).1[i].Some? ==>
      Ticks(d, threshold, readings).1[i] == Some(readings[i]) &&
      forall j :: i + 1 - threshold <= j <= i && 0 <= j ==> readings[j] == readings[i]
  {
    TicksLength(d, threshold, readings);
    if i < |readings| - 1 {
      var pre := readings[..|readings| - 1];
      ReportNeedsStableReadings(d, threshold, pre, i);
      assert Ticks(d, threshold, readings).1[i] == Ticks(d, threshold, pre).1[i];
      if Ticks(d, threshold, pre).1[i].Some? {
        forall j | i + 1 - threshold <= j <= i && 0 <= j
          ensures readings[j] == readings[i]
        {
          assert pre[j] == pre[i];
        }
      }
    } else {
      var pre := readings[..|readings| - 1];
      TicksStable(d, threshold, pre);
      var (d', _) := Ticks(d, threshold, pre);
      var r := readings[i];
      var t := TickStep(d', threshold, r);
      if t.report.Some? && threshold >= 1 {
        assert r == d'.lastRead;
        forall j | i + 1 - threshold <= j <= i && 0 <= j
          ensures readings[j] == readings[i]
        {
          if j < i {
            assert pre[j] == d'.lastRead;
          }
        }
      }
    }
  }

  /** n equal readings. */
  function Repeat(v: bool, n: nat): (r: seq<bool>)
    ensures |r| == n && forall i :: 0 <= i < n ==> r[i] == v
  {
    seq(n, _ => v)
  }

  /** n ticks without a report. */
  function NoReports(n: nat): seq<Option<bool>> {
    seq(n, _ => None)
  }

  /** Ticks over pre + [r], once the ticks over pre are known to end at d1 with reports reps. */
  lemma TicksThen(d: Debounce, threshold: int, pre: seq<bool>, r: bool, d1: Debounce, reps: seq<Option<bool>>)
    requires Ticks(d, threshold, pre) == (d1, reps)
    ensures Ticks(d, threshold, pre + [r]) == (TickStep(d1, threshold, r).next, reps + [TickStep(d1, threshold, r).report])
  {
    TicksSnoc(d, threshold, pre, r);
  }

  lemma RepeatSnoc(v: bool, n: nat)
    requires n > 0
    ensures Repeat(v, n) == Repeat(v, n - 1) + [v]
    ensures NoReports(n) == NoReports(n - 1) + [None]
  {
  }

  /** n consecutive readings v, starting from (v, c), raise the counter to c + n while it stays below the threshold. */
  lemma {:induction false} ConstantTicks(v: bool, c: int, threshold: int, n: nat)
    requires 0 <= c && c + n < threshold
    ensures Ticks(Debounce(v, c), threshold, Repeat(v, n)) == (Debounce(v, c + n), NoReports(n))
  {
    if n > 0 {
      ConstantTicks(v, c, threshold, n - 1);
      RepeatSnoc(v, n);
      TicksThen(Debounce(v, c), threshold, Repeat(v, n - 1), v, Debounce(v, c + n - 1), NoReports(n - 1));
    } else {
      assert Repeat(v, n) == [] && NoReports(n) == [];
    }
  }

  /**
   * While the reading stays v, a monitor whose last read is v and whose
   * counter is 0 reports v again after exactly threshold ticks and is then
   * back at counter 0: a constant reading is re-reported every threshold ticks.
   */
  lemma ConstantReadingReportsPeriodically(v: bool, threshold: int)
    requires threshold >= 1
    ensures Ticks(Debounce(v, 0), threshold, Repeat(v, threshold)) ==
      (Debounce(v, 0), NoReports(threshold - 1) + [Some(v)])
  {
    ConstantTicks(v, 0, threshold, threshold - 1);
    RepeatSnoc(v, threshold);
    TicksThen(Debounce(v, 0), threshold, Repeat(v, threshold - 1), v, Debounce(v, threshold - 1), NoReports(threshold - 1));
  }

  /** Readings B then A after (A, 2) with threshold 3: both mismatch, leaving (A, 0) and no report. */
  lemma ChangeAndBack(a: bool)
    ensures Ticks(Debounce(a, 2), 3, [!a, a]) == (Debounce(a, 0), NoReports(2))
  {
    var e: seq<bool> := [];
    var none: seq<Option<bool>> := [];
    TicksThen(Debounce(a, 2), 3, e, !a, Debounce(a, 2), none);
    assert e + [!a] == [!a] && none + [None] == [None];
    assert TickStep(Debounce(a, 2), 3, !a) == Tick(Debounce(!a, 0), None);
    TicksThen(Debounce(a, 2), 3, [!a], a, Debounce(!a, 0), [None]);
    assert [!a] + [a] == [!a, a];
    assert TickStep(Debounce(!a, 0), 3, a) == Tick(Debounce(a, 0), None);
    assert [None] + [None] == NoReports(2);
  }

  /**
   * With threshold 3, the readings A A B A A A produce no report: the change
   * to B and the change back to A each reset the counter to 0, so the last
   * three A's only bring it to 2.
   */
  lemma ResetToZeroDelaysReport(a: bool)
    ensures Ticks(Debounce(a, 0), 3, [a, a, !a, a, a, a]) == (Debounce(a, 2), NoReports(6))
  {
    var d := Debounce(a, 0);
    ConstantTicks(a, 0, 3, 2);
    ChangeAndBack(a);
    TicksAppend(d, 3, Repeat(a, 2), [!a, a]);
    TicksAppend(d, 3, Repeat(a, 2) + [!a, a], Repeat(a, 2));
    assert Repeat(a, 2) + [!a, a] + Repeat(a, 2) == [a, a, !a, a, a, a];
    assert NoReports(2) + NoReports(2) + NoReports(2) == NoReports(6);
  }

  /** reportSensorState's filter: forward the reading unless it equals both the last stable reading and the space's locked-ness. */
  function ShouldReport(lastStable: bool, v: bool, spaceLocked: bool): (b: bool)
    ensures !b <==> lastStable == v && v == spaceLocked
  {
    lastStable != v || v != spaceLocked
  }

  /**
   * A reading the filter drops agrees with the locked-ness, so handling it
   * would have changed nothing without an override, and with one it leaves
   * the override in place (handling it would have ended the override).
   */
  lemma DroppedReportKeepsOverride(lastStable: bool, v: bool, s: SpaceStatus.SpaceState)
    requires !ShouldReport(lastStable, v, s.IsLocked())
    ensures !s.IsOverridden() ==> SpaceStatus.Step(s, SpaceStatus.Sensor(v)).next == s
    ensures !s.IsOverridden() ==> SpaceStatus.Step(s, SpaceStatus.Sensor(v)).logged.None?
    ensures s.IsOverridden() ==> SpaceStatus.Step(s, SpaceStatus.Sensor(v)).next == s.ClearOverride()
  {
  }

  /** Everything the monitor loop can change: the debounce variables, the stable reading, the space state and the events table. */
  datatype World = World(
    debounce: Debounce, lastStable: bool, state: SpaceStatus.SpaceState, rows: seq<EventStore.Row>, nextId: int)

  /** What one tick takes from outside: the pin level, the clock and whether the insert succeeds. */
  datatype TickInput = TickInput(pinHigh: bool, now: int, insertOk: bool)

  /** reportSensorState's effect: a passed reading becomes the stable reading and is handled as a sensor change by the system user. */
  function Reported(w: World, v: bool, now: int, insertOk: bool): World {
    if ShouldReport(w.lastStable, v, w.state.IsLocked()) then
      var o := SpaceStatus.Step(w.state, SpaceStatus.Sensor(v));
      var stored := SpaceStatus.StoredRows(o.logged, now, Events.SYSTEM_USER, w.nextId, insertOk);
      World(w.debounce, v, o.next, w.rows + stored, w.nextId + |stored|)
    else w
  }

  /** One iteration of the monitor loop: the debounce step, then a report when it fires. */
  function MonitorTick(w: World, threshold: int, t: TickInput): World {
    var step := TickStep(w.debounce, threshold, Reading(t.pinHigh));
    var w' := w.(debounce := step.next);
    if step.report.Some? then Reported(w', step.report.value, t.now, t.insertOk) else w'
  }

  /** The monitor loop over a sequence of ticks. */
  function MonitorRun(w: World, threshold: int, ticks: seq<TickInput>): World
    decreases |ticks|
  {
    if ticks == [] then w
    else MonitorTick(MonitorRun(w, threshold, ticks[..|ticks| - 1]), threshold, ticks[|ticks| - 1])
  }

  /** The readings the ticks take from the pin. */
  function Readings(ticks: seq<TickInput>): (r: seq<bool>)
    ensures |r| == |ticks| && forall i :: 0 <= i < |ticks| ==> r[i] == Reading(ticks[i].pinHigh)
  {
    seq(|ticks|, i requires 0 <= i < |ticks| => Reading(ticks[i].pinHigh))
  }

  /** The debounce variables after the loop are those of the debounce steps alone: reporting never touches them. */
  lemma {:induction false} MonitorRunDebounce(w: World, threshold: int, ticks: seq<TickInput>)
    ensures MonitorRun(w, threshold, ticks).debounce == Ticks(w.debounce, threshold, Readings(ticks)).0
    decreases |ticks|
  {
    if ticks != [] {
      var pre := ticks[..|ticks| - 1];
      MonitorRunDebounce(w, threshold, pre);
      TickDebounce(MonitorRun(w, threshold, pre), threshold, ticks[|ticks| - 1]);
      assert Readings(ticks) == Readings(pre) + [Reading(ticks[|ticks| - 1].pinHigh)];
      TicksSnoc(w.debounce, threshold, Readings(pre), Reading(ticks[|ticks| - 1].pinHigh));
    }
  }

  /** One tick moves the debounce variables by the debounce step alone. */
  lemma TickDebounce(w: World, threshold: int, t: TickInput)
    ensures MonitorTick(w, threshold, t).debounce == TickStep(w.debounce, threshold, Reading(t.pinHigh)).next
  {
  }

  /** The effect of one report on the table: at most one new row, an OPEN or LOCK by the system user under the next id. */
  lemma ReportedRow(w: World, v: bool, now: int, insertOk: bool)
    ensures var r := Reported(w, v, now, insertOk);
      && |w.rows| <= |r.rows| <= |w.rows| + 1 && r.rows[..|w.rows|] == w.rows
      && r.nextId == w.nextId + (|r.rows| - |w.rows|)
      && (|r.rows| > |w.rows| ==>
            r.rows[|w.rows|].id == w.nextId && r.rows[|w.rows|].event.timestamp == now &&
            r.rows[|w.rows|].event.userID == Events.SYSTEM_USER &&
            r.rows[|w.rows|].event.eventType in {Events.OPEN, Events.LOCK})
  {
    if ShouldReport(w.lastStable, v, w.state.IsLocked()) {
      if w.state.IsOverridden() {
        SpaceStatus.SensorWhileOverridden(w.state, v);
      } else {
        SpaceStatus.SensorWithoutOverride(w.state, v);
      }
    }
  }

  /**
   * The loop only appends to the table: every row it adds is an OPEN or LOCK
   * by the system user, and the id counter advances by the number of rows added.
   */
  lemma {:induction false} MonitorRunAppends(w: World, threshold: int, ticks: seq<TickInput>)
    ensures var r := MonitorRun(w, threshold, ticks);
      && |w.rows| <= |r.rows| && r.rows[..|w.rows|] == w.rows
      && r.nextId == w.nextId + (|r.rows| - |w.rows|)
      && forall i :: |w.rows| <= i < |r.rows| ==>
           r.rows[i].event.userID == Events.SYSTEM_USER && r.rows[i].event.eventType in {Events.OPEN, Events.LOCK}
    decreases |ticks|
  {
    if ticks != [] {
      var pre := ticks[..|ticks| - 1];
      var t := ticks[|ticks| - 1];
      MonitorRunAppends(w, threshold, pre);
      var m := MonitorRun(w, threshold, pre);
      var step := TickStep(m.debounce, threshold, Reading(t.pinHigh));
      if step.report.Some? {
        ReportedRow(m.(debounce := step.next), step.report.value, t.now, t.insertOk);
      }
      var r := MonitorRun(w, threshold, ticks);
      assert r.rows[..|m.rows|] == m.rows;
      assert r.rows[..|w.rows|] == m.rows[..|w.rows|];
    }
  }

  /** A tick whose debounce step does not fire changes only the debounce variables. */
  lemma QuietTick(w: World, threshold: int, t: TickInput)
    requires TickStep(w.debounce, threshold, Reading(t.pinHigh)).report.None?
    ensures MonitorTick(w, threshold, t) == w.(debounce := TickStep(w.debounce, threshold, Reading(t.pinHigh)).next)
  {
  }

  /** The monitor: its stable reading, the debounce variables and the state machine it reports to. */
  class Monitor {
    var lastStableState: bool
    var lastReadState: bool
    var debounceCounter: int
    /** config().debounceSeconds. */
    const threshold: int
    const status: SpaceStatus.SpaceStatus

    ghost predicate Valid()
      reads this, status, status.store
    {
      status.Valid() && debounceCounter >= 0 && (threshold >= 1 ==> debounceCounter < threshold)
    }

    function Debouncer(): Debounce
      reads this
    {
      Debounce(lastReadState, debounceCounter)
    }

    /** The monitor's stable reading, debounce variables, the space state and the table, as one value. */
    function Snapshot(): World
      reads this, status, status.store
    {
      World(Debouncer(), lastStableState, status.state, status.store.rows, status.store.nextId)
    }

    /** setupMonitor's initialisation from the raw pin level. */
    constructor (status: SpaceStatus.SpaceStatus, threshold: int, pinHigh: bool)
      requires status.Valid()
      ensures Valid() && this.status == status && this.threshold == threshold
      ensures lastStableState == pinHigh && Debouncer() == InitialDebounce(pinHigh)
    {
      this.status := status;
      this.threshold := threshold;
      lastStableState := pinHigh;
      lastReadState := pinHigh;
      debounceCounter := 0;
    }

    /** getLastStableState. */
    function GetLastStableState(): bool
      reads this
    {
      lastStableState
    }

    /** reportSensorState: a reading the filter passes becomes the stable reading and goes to handleSensorStateChange as the system user. */
    method ReportSensorState(v: bool, now: int, insertOk: bool)
      requires status.Valid()
      modifies this, status, status.store
      ensures status.Valid() && Debouncer() == old(Debouncer())
      ensures ShouldReport(old(lastStableState), v, old(status.state).IsLocked()) ==>
        lastStableState == v &&
        status.state == SpaceStatus.Step(old(status.state), SpaceStatus.Sensor(v)).next &&
        status.store.rows == old(status.store.rows) + SpaceStatus.StoredRows(
          SpaceStatus.Step(old(status.state), SpaceStatus.Sensor(v)).logged, now, -1, old(status.store.nextId), insertOk)
      ensures !ShouldReport(old(lastStableState), v, old(status.state).IsLocked()) ==>
        lastStableState == old(lastStableState) && status.state == old(status.state) &&
        status.store.rows == old(status.store.rows)
      ensures Snapshot() == Reported(old(Snapshot()), v, now, insertOk)
    {
      if ShouldReport(lastStableState, v, status.IsSpaceLocked()) {
        lastStableState := v;
        status.HandleSensorStateChange(v, now, -1, insertOk);
      }
    }

    /** One iteration of the monitor loop, given the pin level read in it. */
    method Tick(pinHigh: bool, now: int, insertOk: bool)
      requires Valid()
      modifies this, status, status.store
      ensures Valid()
      ensures Debouncer() == TickStep(old(Debouncer()), threshold, Reading(pinHigh)).next
      ensures TickStep(old(Debouncer()), threshold, Reading(pinHigh)).report.None? ==>
        lastStableState == old(lastStableState) && status.state == old(status.state) &&
        status.store.rows == old(status.store.rows)
      ensures TickStep(old(Debouncer()), threshold, Reading(pinHigh)).report.Some? ==>
        var v := TickStep(old(Debouncer()), threshold, Reading(pinHigh)).report.value;
        && (ShouldReport(old(lastStableState), v, old(status.state).IsLocked()) ==>
              lastStableState == v &&
              status.state == SpaceStatus.Step(old(status.state), SpaceStatus.Sensor(v)).next &&
              status.store.rows == old(status.store.rows) + SpaceStatus.StoredRows(
                SpaceStatus.Step(old(status.state), SpaceStatus.Sensor(v)).logged, now, -1, old(status.store.nextId), insertOk))
        && (!ShouldReport(old(lastStableState), v, old(status.state).IsLocked()) ==>
              lastStableState == old(lastStableState) && status.state == old(status.state) &&
              status.store.rows == old(status.store.rows))
      ensures Snapshot() == MonitorTick(old(Snapshot()), threshold, TickInput(pinHigh, now, insertOk))
    {
      var currentRead := !pinHigh;
      if currentRead == lastReadState {
        debounceCounter := debounceCounter + 1;
      } else {
        debounceCounter := 0;
        lastReadState := currentRead;
      }
      if debounceCounter >= threshold {
        ReportSensorState(currentRead, now, insertOk);
        debounceCounter := 0;
      }
    }

    /** The monitor loop over a sequence of ticks, each with its pin level, clock reading and insert outcome. */
    method Run(ticks: seq<TickInput>)
      requires Valid()
      modifies this, status, status.store
      ensures Valid()
      ensures Snapshot() == MonitorRun(old(Snapshot()), threshold, ticks)
      ensures Debouncer() == Ticks(old(Debouncer()), threshold, Readings(ticks)).0
    {
      ghost var w0 := Snapshot();
      var n := 0;
      while n < |ticks|
        invariant 0 <= n <= |ticks|
        invariant Valid()
        invariant Snapshot() == MonitorRun(w0, threshold, ticks[..n])
      {
        assert ticks[..n + 1][..n] == ticks[..n];
        Tick(ticks[n].pinHigh, ticks[n].now, ticks[n].insertOk);
        n := n + 1;
      }
      assert ticks[..|ticks|] == ticks;
      MonitorRunDebounce(w0, threshold, ticks);
    }
  }
}
