# mms-doorbell-bot core, modelled in Dafny

The doorbell bot reports whether a makerspace door is open or locked.
A Raspberry Pi reads a door sensor once a second and debounces the reading.
Stable readings go to a small state machine, `SpaceStatus`, that also
serves the `/open`, `/lock` and `/resume` commands. Each status change is
logged to an SQLite events table. Discord notifications carry a "claim"
button that lets a key holder put their name on an event. Statistics are
computed by scanning the events table:
- sessions and their order statistics;
- time of day and day of week;
- per-user counts and streaks;
- total operating time, and the average and longest runs of a state.

A second table counts the cat reactions on notifications. A small updater
compares dotted version strings.

This project models that core in Dafny:

- `space_status.dfy` — the four-state `SpaceState` enum and a pure `Step`
  function for each operation. The `SpaceStatus` class holds the `state`
  field and the events table (a `Store`) that its methods update.
- `door_monitor.dfy` — the per-tick debounce step, the report filter, and
  a `Monitor` class that runs both against a `SpaceStatus`.
- `event_store.dfy` — the events table as a class over a sequence of rows.
  It covers the insert with fresh ids, lookup by id, the n-th latest event,
  and the compare-and-swap claim.
- `sessions.dfy`, `time_of_day.dfy`, `day_of_week.dfy`, `user_stats.dfy`,
  `streaks.dfy` — the OpStatsUtils scans. Each is a method with a loop,
  proved equal to a fold over the time-ordered events, with the promised
  properties proved about the fold.
- `operation_statistics.dfy` — OperationStatistics: total operating time,
  event times, average and longest state runs, last event.
- `cat_stats.dfy` — the id-list codec, the `message_reacts` upserts, and the
  two top-N rankings.
- `stats_report.dfy`, `claim_listener.dfy`, `time_utils.dfy`,
  `version_comparator.dfy`, `args.dfy` — the cache rule, the claim button,
  duration and clock formatting, the version order, and the command-line
  scanner.
- `wrappers.dfy`, `java_math.dfy`, `strings.dfy`, `decimal.dfy`,
  `sorting.dfy`, `events.dfy` — how the Java library calls the code relies
  on behave:
  - truncating `long` division;
  - `String.split`, `trim`, `startsWith` and `contains`;
  - `Long.toString`, `Long.parseLong` and `Integer.parseInt`;
  - the stable `List.sort` / `Stream.sorted`;
  - the shared event record.

Inputs the code reads from the outside world are parameters:
- the clock (`now`, `today`);
- the GPIO pin level of each tick;
- the time-zone conversions (`secondOfDay`, `dayOf`, `dateOf`, all function-typed);
- whether an SQL statement succeeds (`insertOk`, `sqlOk`, `ok`);
- the Discord member record, button id and embed timestamps of a click.

Behaviour of the code worth knowing:
- The debounce counter is reset to 0 when the reading changes and after
  every report. With a threshold of 3, the readings A A B A A A therefore
  produce no report (`DoorMonitor.ResetToZeroDelaysReport`).
- At start-up the state is LOCKED only when the latest event is a LOCK
  (or there is none). A latest `OVERRIDE_LOCK` starts the bot OPEN
  (`SpaceStatus.RestartAfterLockOverrideIsOpen`).
- `logEvent` in OpStatsUtils catches `SQLException` and returns -1. The
  state change still happens and nothing is stored (`insertOk` false).
- Because a failed insert stores nothing, the OPEN/LOCK alternation is
  proved over the events the state machine issues (the ghost `issued` log). It is
  not proved over the stored table.
- `SELECT … FROM message_reacts` without `ORDER BY` is modelled as the
  table's insertion order, with updated rows staying in place.

## Model

| member | source | states |
|---|---|---|
| SpaceStatus.SpaceState.ClearOverride | src/main/java/edu/mines/mmsbot/bot/framework/SpaceStatus.java:49-51 | the result is not overridden and keeps the locked-ness |
| SpaceStatus.SpaceState.Override | src/main/java/edu/mines/mmsbot/bot/framework/SpaceStatus.java:53-55 | the result is overridden and keeps the locked-ness |
| SpaceStatus.FromSensor | src/main/java/edu/mines/mmsbot/bot/framework/SpaceStatus.java:57-59 | the result is not overridden and is locked exactly when the sensor says locked |
| SpaceStatus.FlagsDetermineState | src/main/java/edu/mines/mmsbot/bot/framework/SpaceStatus.java:27-39 | two states with the same (locked, overridden) flags are the same state |
| SpaceStatus.OverrideRoundTrip | src/main/java/edu/mines/mmsbot/bot/framework/SpaceStatus.java:49-59 | clearing after overriding is clearing; overriding a cleared overridden state gives it back; a non-overridden state is its own sensor state |
| SpaceStatus.InitialState | src/main/java/edu/mines/mmsbot/bot/framework/SpaceStatus.java:65-70 | the start state is never overridden and is locked exactly when there is no latest event or it is a LOCK |
| SpaceStatus.RestartAfterLockOverrideIsOpen | src/main/java/edu/mines/mmsbot/bot/framework/SpaceStatus.java:67-70 | a latest OVERRIDE_LOCK event starts the bot OPEN |
| SpaceStatus.SpaceStatus.constructor | src/main/java/edu/mines/mmsbot/bot/framework/SpaceStatus.java:62-79 | the state is InitialState of the store's latest event, and nothing has been issued |
| SpaceStatus.SensorWhileOverridden | src/main/java/edu/mines/mmsbot/bot/framework/SpaceStatus.java:90-94 | while overridden, a sensor change ignores its value, clears the override keeping the locked-ness, and logs nothing |
| SpaceStatus.SensorWithoutOverride | src/main/java/edu/mines/mmsbot/bot/framework/SpaceStatus.java:96-110 | without an override, an agreeing reading changes and logs nothing; a differing one sets the sensor state and logs one LOCK or OPEN; either way the locked-ness ends equal to the reading |
| SpaceStatus.ManualOpenSpec | src/main/java/edu/mines/mmsbot/bot/framework/SpaceStatus.java:116-132 | returns whether the space was locked; if it was, the state becomes OPEN and one OPEN is logged, otherwise nothing changes |
| SpaceStatus.ManualLockSpec | src/main/java/edu/mines/mmsbot/bot/framework/SpaceStatus.java:137-154 | returns whether the space was open; if it was, the state becomes LOCKED and one LOCK is logged, otherwise nothing changes |
| SpaceStatus.OverrideNeverFalse | src/main/java/edu/mines/mmsbot/bot/framework/SpaceStatus.java:159-180 | the override operations never return false; they return true exactly from OPEN (resp. LOCKED), and when they throw nothing changes |
| SpaceStatus.ClearFollowsSensor | src/main/java/edu/mines/mmsbot/bot/framework/SpaceStatus.java:185-200 | from either overridden state, a clear does the same thing: it sets the sensor's state and logs one CLEAR_OVERRIDE |
| SpaceStatus.LockedChangesOnlyWithBoundary | src/main/java/edu/mines/mmsbot/bot/framework/SpaceStatus.java:84-200 | any operation that changes the locked-ness logs an OPEN, LOCK or CLEAR_OVERRIDE |
| SpaceStatus.CommandFallbackNeverDeclined | src/main/java/edu/mines/mmsbot/bot/commands/OpenCommand.java:30-57 | when the manual operation declines, the override that follows never returns false; for open it succeeds exactly from OPEN |
| SpaceStatus.LastBoundary | src/main/java/edu/mines/mmsbot/bot/framework/SpaceStatus.java:101-200 | the index of the last OPEN, LOCK or CLEAR_OVERRIDE in a log, or none when no entry is one |
| SpaceStatus.StepKeepsConsistent | src/main/java/edu/mines/mmsbot/bot/framework/SpaceStatus.java:84-200 | every operation keeps "the last boundary agrees with the locked-ness", and an OPEN/LOCK it logs differs from the previous boundary |
| SpaceStatus.AppendKeepsSeparated | src/main/java/edu/mines/mmsbot/bot/framework/SpaceStatus.java:101-154 | appending an event that differs from the last boundary keeps every two equal OPENs (LOCKs) separated by a different boundary |
| SpaceStatus.RunAlternates | src/main/java/edu/mines/mmsbot/bot/framework/SpaceStatus.java:84-200 | over any run of operations, two OPEN appends are separated by a LOCK or CLEAR_OVERRIDE, and two LOCKs by an OPEN or CLEAR_OVERRIDE |
| SpaceStatus.SpaceStatus.Apply | src/main/java/edu/mines/mmsbot/bot/framework/SpaceStatus.java:84-200 | performs one operation: the reply, new state and issued log follow Step, and the table gains the logged row under the next id (and the id counter advances) exactly when the insert succeeds |
| SpaceStatus.SpaceStatus.HandleSensorStateChange | src/main/java/edu/mines/mmsbot/bot/framework/SpaceStatus.java:84-111 | the new state, issued log and stored rows are those of the sensor step |
| SpaceStatus.SpaceStatus.ManualOpen | src/main/java/edu/mines/mmsbot/bot/framework/SpaceStatus.java:116-132 | returns whether the space was locked; state, log and table follow the manual-open step |
| SpaceStatus.SpaceStatus.ManualLock | src/main/java/edu/mines/mmsbot/bot/framework/SpaceStatus.java:137-154 | returns whether the space was open; state, log and table follow the manual-lock step |
| SpaceStatus.SpaceStatus.OverrideOpen | src/main/java/edu/mines/mmsbot/bot/framework/SpaceStatus.java:159-167 | true from OPEN, IllegalStateException otherwise; state, log and table follow the step |
| SpaceStatus.SpaceStatus.OverrideLock | src/main/java/edu/mines/mmsbot/bot/framework/SpaceStatus.java:172-180 | true from LOCKED, IllegalStateException otherwise; state, log and table follow the step |
| SpaceStatus.SpaceStatus.ClearOverride | src/main/java/edu/mines/mmsbot/bot/framework/SpaceStatus.java:185-200 | returns whether an override was active; state, log and table follow the clear step |
| SpaceStatus.OpenCommand | src/main/java/edu/mines/mmsbot/bot/commands/OpenCommand.java:30-57 | /open replies "manual" exactly when the space was locked and "override activated" exactly from OPEN; it throws from OPEN_OVERRIDDEN; "already active" never happens; the new state, issued log, rows and id counter are those of manualOpen from a locked space and of overrideOpen otherwise |
| SpaceStatus.LockCommand | src/main/java/edu/mines/mmsbot/bot/commands/LockCommand.java:30-57 | /lock replies "manual" exactly when the space was open and "override activated" exactly from LOCKED; it throws from LOCKED_OVERRIDDEN; "already active" never happens; the new state, issued log, rows and id counter are those of manualLock from an open space and of overrideLock otherwise |
| DoorMonitor.TickBounds | src/main/java/edu/mines/mmsbot/pi/DoorMonitor.java:75-90 | after a tick the last read is the tick's reading, a report carries that reading, and with a threshold of 1 or more the counter is in [0, threshold) |
| DoorMonitor.MismatchNeverReports | src/main/java/edu/mines/mmsbot/pi/DoorMonitor.java:80-84 | with a threshold of 1 or more, a reading that differs from the last one only resets the counter to 0 and reports nothing |
| DoorMonitor.MatchReportsAtThreshold | src/main/java/edu/mines/mmsbot/pi/DoorMonitor.java:77-90 | a matching reading reports exactly when the incremented counter reaches the threshold, and the counter is then reset to 0 |
| DoorMonitor.FirstTickMismatches | src/main/java/edu/mines/mmsbot/pi/DoorMonitor.java:64-84 | the first tick after setup with an unchanged pin compares the inverted level with the raw one, so it mismatches and resets the counter |
| DoorMonitor.TicksLength | src/main/java/edu/mines/mmsbot/pi/DoorMonitor.java:74-92 | a run of ticks gives one report slot per reading |
| DoorMonitor.TicksAppend | src/main/java/edu/mines/mmsbot/pi/DoorMonitor.java:74-92 | ticking through a then b is ticking through a, then through b from where a stopped |
| DoorMonitor.TicksStable | src/main/java/edu/mines/mmsbot/pi/DoorMonitor.java:77-90 | starting from a zero counter, the last `counter` readings all equal the last read |
| DoorMonitor.ReportNeedsStableReadings | src/main/java/edu/mines/mmsbot/pi/DoorMonitor.java:77-90 | a report at tick i carries reading i, and the threshold readings ending at tick i are all equal |
| DoorMonitor.ConstantTicks | src/main/java/edu/mines/mmsbot/pi/DoorMonitor.java:77-79 | n equal readings below the threshold raise the counter by n and report nothing |
| DoorMonitor.ConstantReadingReportsPeriodically | src/main/java/edu/mines/mmsbot/pi/DoorMonitor.java:87-90 | under a constant reading, a zero counter reaches a report after exactly threshold ticks and is back at 0 |
| DoorMonitor.ResetToZeroDelaysReport | src/main/java/edu/mines/mmsbot/pi/DoorMonitor.java:80-90 | with threshold 3, A A B A A A reports nothing and leaves the counter at 2 |
| DoorMonitor.DroppedReportKeepsOverride | src/main/java/edu/mines/mmsbot/pi/DoorMonitor.java:29-36 | a dropped reading agrees with the locked-ness: without an override handling it would change nothing, with one it would end the override |
| DoorMonitor.Monitor.constructor | src/main/java/edu/mines/mmsbot/pi/DoorMonitor.java:64-67 | the stable reading and the last read are the raw pin level and the counter is 0 |
| DoorMonitor.Monitor.ReportSensorState | src/main/java/edu/mines/mmsbot/pi/DoorMonitor.java:29-36 | a reading the filter passes becomes the stable reading and goes to handleSensorStateChange as user -1; a dropped one changes nothing; together, the monitor's state moves as Reported says |
| DoorMonitor.Monitor.Tick | src/main/java/edu/mines/mmsbot/pi/DoorMonitor.java:75-90 | the debounce variables follow TickStep on the inverted pin level; a tick without a report changes nothing else; a reporting tick with a passed reading sets the stable reading, the space state and the rows from the sensor step (as user -1), and with a dropped reading leaves them; together, the monitor's state moves as MonitorTick says |
| DoorMonitor.Monitor.Run | src/main/java/edu/mines/mmsbot/pi/DoorMonitor.java:74-92 | the loop over a sequence of ticks leaves the stable reading, space state, rows and id counter that MonitorRun computes, and the debounce variables that Ticks computes |
| DoorMonitor.MonitorRunDebounce | src/main/java/edu/mines/mmsbot/pi/DoorMonitor.java:74-92 | reporting never touches the debounce variables: after the loop they are those of Ticks over the readings alone |
| DoorMonitor.ReportedRow | src/main/java/edu/mines/mmsbot/pi/DoorMonitor.java:29-36 | one report adds at most one row: an OPEN or LOCK by the system user, stamped with the tick's clock, under the next id |
| DoorMonitor.MonitorRunAppends | src/main/java/edu/mines/mmsbot/pi/DoorMonitor.java:74-92 | the loop only appends to the table; every row it adds is an OPEN or LOCK by the system user, and the id counter advances by the number of rows added |
| DoorMonitor.QuietTick | src/main/java/edu/mines/mmsbot/pi/DoorMonitor.java:77-86 | a tick whose debounce step does not fire changes only the debounce variables |
| EventStore.Store.constructor | src/main/java/edu/mines/mmsbot/data/util/OpStatsUtils.java:14-16 | the table starts empty |
| EventStore.Store.LogEvent | src/main/java/edu/mines/mmsbot/data/util/OpStatsUtils.java:18-34 | a successful insert appends one row under a fresh id greater than every earlier id and returns it; a failed one returns -1 and changes nothing |
| EventStore.Store.ClaimEvent | src/main/java/edu/mines/mmsbot/data/util/OpStatsUtils.java:36-47 | returns true exactly when a row with that id and user -1 exists; the table becomes Claimed(rows, id, u) |
| EventStore.Claimed | src/main/java/edu/mines/mmsbot/data/util/OpStatsUtils.java:38 | the UPDATE keeps the number of rows |
| EventStore.ClaimCountIsOne | src/main/java/edu/mines/mmsbot/data/util/OpStatsUtils.java:42-45 | at most one row is updated, and exactly one when the event is claimable |
| EventStore.ClaimChangesOnlyUser | src/main/java/edu/mines/mmsbot/data/util/OpStatsUtils.java:38-42 | a claim changes only the user of the row with that id: ids, timestamps, types and every other row are unchanged; an unclaimable event leaves the table as it was |
| EventStore.ClaimIsFinal | src/main/java/edu/mines/mmsbot/data/util/OpStatsUtils.java:36-47 | after a claim by a real user the event is no longer claimable, and a claimable event now names that user |
| EventStore.TwoClaimsOneWinner | src/main/java/edu/mines/mmsbot/data/util/OpStatsUtils.java:36-47 | of two claims of the same event, the second changes nothing and the first claimer stays recorded |
| EventStore.Find | src/main/java/edu/mines/mmsbot/data/util/OpStatsUtils.java:49-69 | getEvent returns a row with that id, or null when no row has it |
| EventStore.FindAppended | src/main/java/edu/mines/mmsbot/data/util/OpStatsUtils.java:18-69 | after an insert, getEvent of the new id returns the new event and every other id reads as before |
| EventStore.Chronological | src/main/java/edu/mines/mmsbot/data/util/OpStatsUtils.java:101 | ORDER BY timestamp gives a permutation of the rows in non-decreasing timestamp order |
| EventStore.Store.Events | src/main/java/edu/mines/mmsbot/data/util/OpStatsUtils.java:101 | the events the scans read are in timestamp order |
| EventStore.LastEvent | src/main/java/edu/mines/mmsbot/data/util/OpStatsUtils.java:71-96 | getLastEvent(k) is null exactly when there are at most k rows (a negative offset counts as 0), and otherwise one of the rows |
| EventStore.LastEventIsLatest | src/main/java/edu/mines/mmsbot/data/util/OpStatsUtils.java:74 | getLastEvent(0) of a non-empty table has the greatest timestamp |
| EventStore.LastEventMonotone | src/main/java/edu/mines/mmsbot/data/util/OpStatsUtils.java:74 | a larger offset never gives a later timestamp |
| EventStore.ByOffset | src/main/java/edu/mines/mmsbot/data/util/OpStatsUtils.java:71-96 | the events that offsets 0 to n-1 return, one per offset |
| EventStore.OffsetsListEveryEvent | src/main/java/edu/mines/mmsbot/data/util/OpStatsUtils.java:74 | walking the offsets lists every stored event exactly once; with LastEventMonotone, offset k gives the (k+1)-th latest event |
| Sessions.CollectDurations | src/main/java/edu/mines/mmsbot/data/util/OpStatsUtils.java:104-128 | the row loop computes the open and closed duration lists that SessionDurations defines |
| Sessions.SessionExample | src/main/java/edu/mines/mmsbot/data/util/OpStatsUtils.java:104-128 | OPEN t0, LOCK t1, OPEN t2 at now t3 gives open [t1-t0, t3-t2] and closed [t2-t1] |
| Sessions.ScanNonNegative | src/main/java/edu/mines/mmsbot/data/util/OpStatsUtils.java:110-124 | on time-ordered rows every paired duration is non-negative and the pending times are at most the last timestamp |
| Sessions.SessionDurationsNonNegative | src/main/java/edu/mines/mmsbot/data/util/OpStatsUtils.java:104-128 | with time-ordered rows and now not before the last one, every open and closed duration is non-negative |
| Sessions.ScanCounts | src/main/java/edu/mines/mmsbot/data/util/OpStatsUtils.java:114-123 | there are at most as many open durations as LOCKs and closed durations as OPENs |
| Sessions.Mean | src/main/java/edu/mines/mmsbot/data/util/OpStatsUtils.java:150-153 | total / count lies within any bounds of the values |
| Sessions.Median | src/main/java/edu/mines/mmsbot/data/util/OpStatsUtils.java:155-157 | the median of a sorted list lies between its first and last elements |
| Sessions.BuildStats | src/main/java/edu/mines/mmsbot/data/util/OpStatsUtils.java:145-178 | empty input gives zeros; otherwise count and total are right, the average is the truncated total / count, the median is that of the sorted durations, longest and shortest are elements that bound all others, and median and average lie between them |
| Sessions.ExtremesOfSorted | src/main/java/edu/mines/mmsbot/data/util/OpStatsUtils.java:148-167 | after sorting, the first and last elements bound every input duration |
| Sessions.BuildStatsOfSorted | src/main/java/edu/mines/mmsbot/data/util/OpStatsUtils.java:145-178 | on sorted input the stats are (mean, median, last, first, count, sum) |
| Sessions.MedianOfSorted | src/main/java/edu/mines/mmsbot/data/util/OpStatsUtils.java:155-157 | on sorted input, the median is the middle element for odd counts and the truncated mean of the two middle elements for even counts |
| Sessions.MedianOfAny | src/main/java/edu/mines/mmsbot/data/util/OpStatsUtils.java:148-157 | for any durations, the median is the middle element of the sorted copy for odd counts and the truncated mean of its two middle elements for even counts |
| Sessions.BuildStatsExample | src/main/java/edu/mines/mmsbot/data/util/OpStatsUtils.java:145-178 | [10, 20, 30, 40] gives average 25, median 25, longest 40, shortest 10, count 4, total 100 |
| Sessions.GetSessionStatistics | src/main/java/edu/mines/mmsbot/data/util/OpStatsUtils.java:98-142 | the two results are BuildStats of the open and of the closed durations |
| TimeOfDay.AverageTime | src/main/java/edu/mines/mmsbot/data/util/OpStatsUtils.java:358-367 | null exactly for an empty list; otherwise it lies between the least and greatest second of the day |
| TimeOfDay.ScanMatchesSessions | src/main/java/edu/mines/mmsbot/data/util/OpStatsUtils.java:188-210 | open times are the second of day of every OPEN; each paired LOCK adds one close time and one pair with that close; pairs match the session scan's paired OPEN→LOCK |
| TimeOfDay.CloseTimesBounded | src/main/java/edu/mines/mmsbot/data/util/OpStatsUtils.java:203-208 | there are no more close times than LOCKs or OPENs |
| TimeOfDay.PairsAtMostOpens | src/main/java/edu/mines/mmsbot/data/util/OpStatsUtils.java:199-208 | paired sessions plus a pending open number at most the OPENs |
| TimeOfDay.GetTimeOfDayStatistics | src/main/java/edu/mines/mmsbot/data/util/OpStatsUtils.java:180-223 | the row loop computes TimeOfDayStatistics: both average times and the operating-hours list |
| DayOfWeekStats.Zeros | src/main/java/edu/mines/mmsbot/data/util/OpStatsUtils.java:232-235 | all seven days start at 0 |
| DayOfWeekStats.ScanAll | src/main/java/edu/mines/mmsbot/data/util/OpStatsUtils.java:240-259 | the scan keeps all seven days in both maps, with a pending open time exactly when there is a pending day |
| DayOfWeekStats.MaxIndex | src/main/java/edu/mines/mmsbot/data/util/OpStatsUtils.java:261-264 | the index of a maximum, and no earlier index holds an equal value |
| DayOfWeekStats.BusiestIsEarliestMaximum | src/main/java/edu/mines/mmsbot/data/util/OpStatsUtils.java:261-266 | the busiest day is never missing, has the greatest duration, and is the earliest such day from Monday to Sunday |
| DayOfWeekStats.OpensCounted | src/main/java/edu/mines/mmsbot/data/util/OpStatsUtils.java:249-252 | each day's count is the number of OPENs on that weekday |
| DayOfWeekStats.OpensTotal | src/main/java/edu/mines/mmsbot/data/util/OpStatsUtils.java:249-252 | the counts over the week add up to the number of OPENs |
| DayOfWeekStats.DurationsMatchSessions | src/main/java/edu/mines/mmsbot/data/util/OpStatsUtils.java:253-258 | the week's durations add up to the paired open sessions (a trailing unpaired OPEN adds nothing), and the pending day is the pending open's weekday |
| DayOfWeekStats.PairCreditedToOpeningDay | src/main/java/edu/mines/mmsbot/data/util/OpStatsUtils.java:249-258 | OPEN t0 then LOCK t1 counts one open and t1 - t0 on t0's weekday and nothing on any other day |
| DayOfWeekStats.GetDayOfWeekStatistics | src/main/java/edu/mines/mmsbot/data/util/OpStatsUtils.java:225-272 | the seeding loop and the row loop compute DayOfWeekStatistics |
| UserStats.CountsPerUser | src/main/java/edu/mines/mmsbot/data/util/OpStatsUtils.java:281-291 | each user's entry is their number of OPEN (LOCK) rows; the user -1 never appears; every user with such a row appears |
| UserStats.IgnoredRows | src/main/java/edu/mines/mmsbot/data/util/OpStatsUtils.java:283-290 | a row of the user -1, or an override or clear row, changes no count |
| UserStats.GetUserStatistics | src/main/java/edu/mines/mmsbot/data/util/OpStatsUtils.java:274-299 | the row loop computes the per-user fold |
| Streaks.OpenDatesSpec | src/main/java/edu/mines/mmsbot/data/util/OpStatsUtils.java:307-316 | the date set holds exactly the dates of OPEN rows, and is empty exactly when there is no OPEN |
| Streaks.ChainBounded | src/main/java/edu/mines/mmsbot/data/util/OpStatsUtils.java:318-324 | a run of consecutive dates ending at a day is no longer than the number of dates up to that day |
| Streaks.Minimum | src/main/java/edu/mines/mmsbot/data/util/OpStatsUtils.java:326-328 | the least date of a non-empty set |
| Streaks.Sorted | src/main/java/edu/mines/mmsbot/data/util/OpStatsUtils.java:326-328 | sorting the date set gives a strictly ascending list of exactly its dates |
| Streaks.SortedUnique | src/main/java/edu/mines/mmsbot/data/util/OpStatsUtils.java:326-328 | any strictly ascending list of exactly the set's dates is the sorted list |
| Streaks.ListingsEqual | src/main/java/edu/mines/mmsbot/data/util/OpStatsUtils.java:326-328 | two strictly ascending lists with the same elements are equal |
| Streaks.CurrentStreak | src/main/java/edu/mines/mmsbot/data/util/OpStatsUtils.java:318-324 | the loop counts the run of consecutive dates ending at today (0 when today has no OPEN) |
| Streaks.Neighbours | src/main/java/edu/mines/mmsbot/data/util/OpStatsUtils.java:346 | in the sorted dates, the day before a date is open exactly when it is the previous list element |
| Streaks.ChainAt | src/main/java/edu/mines/mmsbot/data/util/OpStatsUtils.java:345-353 | the run ending at a sorted date is one more than the run at the previous date when they are consecutive, else 1 |
| Streaks.GetLongestStreak | src/main/java/edu/mines/mmsbot/data/util/OpStatsUtils.java:340-356 | the loop returns the longest run of consecutive elements in the list |
| Streaks.RunIsChain | src/main/java/edu/mines/mmsbot/data/util/OpStatsUtils.java:345-353 | the loop's run counter at a sorted date is the run of consecutive dates ending there |
| Streaks.LongestRunIsLongest | src/main/java/edu/mines/mmsbot/data/util/OpStatsUtils.java:340-356 | getLongestStreak of the sorted dates is the longest run of consecutive dates in the set |
| Streaks.LongestAmongBounds | src/main/java/edu/mines/mmsbot/data/util/OpStatsUtils.java:340-356 | the longest streak bounds the run at every date and equals the run at one of them; it is 0 with no dates |
| Streaks.StreaksOrdered | src/main/java/edu/mines/mmsbot/data/util/OpStatsUtils.java:318-332 | currentStreak ≤ longestStreak ≤ totalDaysOpen, and longestStreak ≥ 1 exactly when some OPEN exists |
| Streaks.GetStreakStatistics | src/main/java/edu/mines/mmsbot/data/util/OpStatsUtils.java:301-338 | the scan, the current-streak loop and getLongestStreak compute StreakStatistics |
| Streaks.StreakExample | src/main/java/edu/mines/mmsbot/data/util/OpStatsUtils.java:340-356 | dates {1, 2, 3, 5} have longest streak 3 and a streak of 1 ending at 5 |
| OperationStatistics.Decode | src/main/java/edu/mines/mmsbot/data/OperationStatistics.java:145 | EventType.valueOf succeeds exactly on OPEN and LOCK, and gives back the stored name |
| OperationStatistics.DecodeStored | src/main/java/edu/mines/mmsbot/data/OperationStatistics.java:71 | a type this class stores decodes to itself |
| OperationStatistics.Statistics.LogEvent | src/main/java/edu/mines/mmsbot/data/OperationStatistics.java:65-77 | a successful insert appends one row with the event's name under the next id and advances the id counter; a failed one changes nothing and does not throw |
| OperationStatistics.TotalScanIsSessionSum | src/main/java/edu/mines/mmsbot/data/OperationStatistics.java:87-97 | the running total is the sum of the paired OPEN→LOCK durations, with the same pending open |
| OperationStatistics.TotalIsSumOfOpenSessions | src/main/java/edu/mines/mmsbot/data/OperationStatistics.java:84-101 | the total operating time is the sum of the open session durations, a trailing open counted to now |
| OperationStatistics.Statistics.GetTotalOperatingTime | src/main/java/edu/mines/mmsbot/data/OperationStatistics.java:79-109 | the row loop computes TotalOperatingTime of the stored events |
| OperationStatistics.TimesOf | src/main/java/edu/mines/mmsbot/data/OperationStatistics.java:118-125 | one timestamp per row of that type |
| OperationStatistics.TimesOfOrdered | src/main/java/edu/mines/mmsbot/data/OperationStatistics.java:114-127 | the timestamps are ascending and each one is the timestamp of a row of that type |
| OperationStatistics.Statistics.GetAllEventTimes | src/main/java/edu/mines/mmsbot/data/OperationStatistics.java:111-133 | the row loop returns TimesOf the stored events |
| OperationStatistics.ScanRuns | src/main/java/edu/mines/mmsbot/data/OperationStatistics.java:143-159 | the run loop succeeds exactly when every type decodes, and then returns the runs (from the first event of a run to the next event of another type, a trailing run to now); otherwise IllegalArgumentException |
| OperationStatistics.RunFromFirstEvent | src/main/java/edu/mines/mmsbot/data/OperationStatistics.java:147-154 | OPEN 1, OPEN 2, LOCK 5 is one run (1, 4); a trailing run is measured to now |
| OperationStatistics.Statistics.GetAverageStateDuration | src/main/java/edu/mines/mmsbot/data/OperationStatistics.java:135-171 | returns AverageStateDuration: the truncated mean of the runs, 0 without runs, IllegalArgumentException on an unknown type |
| OperationStatistics.LongestIsEarliestMaximum | src/main/java/edu/mines/mmsbot/data/OperationStatistics.java:180-210 | the longest period bounds every run; it is (0, 0) when none is positive, else the earliest run of greatest duration |
| OperationStatistics.Statistics.GetLongestStatePeriod | src/main/java/edu/mines/mmsbot/data/OperationStatistics.java:175-216 | returns LongestStatePeriod of the stored events |
| OperationStatistics.LongestAtLeastAverage | src/main/java/edu/mines/mmsbot/data/OperationStatistics.java:161-208 | for every state the longest period's duration is at least the average duration |
| OperationStatistics.Statistics.GetLastEvent | src/main/java/edu/mines/mmsbot/data/OperationStatistics.java:218-242 | null exactly for an empty table; IllegalArgumentException exactly when the latest row's type is not OPEN or LOCK; otherwise the latest row's timestamp, user and type |
| CatStats.Texts | src/main/java/edu/mines/mmsbot/data/util/CatStatsUtils.java:184 | one decimal text per id |
| CatStats.NonBlank | src/main/java/edu/mines/mmsbot/data/util/CatStatsUtils.java:194 | the kept pieces are not blank |
| CatStats.ParseAll | src/main/java/edu/mines/mmsbot/data/util/CatStatsUtils.java:195 | succeeds exactly when every piece parses as a long, with those values in order; otherwise NumberFormatException |
| CatStats.ExtractList | src/main/java/edu/mines/mmsbot/data/util/CatStatsUtils.java:190-197 | null, blank and NO_USERS-containing values give the empty list; the only failure is NumberFormatException |
| CatStats.BadPieceThrows | src/main/java/edu/mines/mmsbot/data/util/CatStatsUtils.java:193-196 | one non-blank piece that is not a long makes the whole call throw |
| CatStats.SpacedIdThrows | src/main/java/edu/mines/mmsbot/data/util/CatStatsUtils.java:195 | " 7" throws NumberFormatException (parseLong does not trim) |
| CatStats.PackListChars | src/main/java/edu/mines/mmsbot/data/util/CatStatsUtils.java:182-187 | a packed list holds only digits, '-' and ',' |
| CatStats.ExtractPack | src/main/java/edu/mines/mmsbot/data/util/CatStatsUtils.java:182-196 | extractList(packList(ids)) == ids for every list of longs, order and duplicates kept |
| CatStats.Lookup | src/main/java/edu/mines/mmsbot/data/util/CatStatsUtils.java:67 | a message has a row exactly when some row has its id |
| CatStats.Upserted | src/main/java/edu/mines/mmsbot/data/util/CatStatsUtils.java:156-157 | the insert-or-update keeps ids distinct, reads back the new value, leaves every other message as it was, and adds a row only for a new id |
| CatStats.UpdateLookup | src/main/java/edu/mines/mmsbot/data/util/CatStatsUtils.java:157 | updating a row in place changes only that message's value |
| CatStats.ReactionTable.constructor | src/main/java/edu/mines/mmsbot/data/util/CatStatsUtils.java:24-26 | the table starts empty |
| CatStats.ReactionTable.StoreMessage | src/main/java/edu/mines/mmsbot/data/util/CatStatsUtils.java:154-166 | upserts NO_USERS; a failed statement changes nothing |
| CatStats.ReactionTable.UpdateReactions | src/main/java/edu/mines/mmsbot/data/util/CatStatsUtils.java:168-180 | upserts packList(users); a failed statement changes nothing |
| CatStats.StoredMessageHasNoUsers | src/main/java/edu/mines/mmsbot/data/util/CatStatsUtils.java:154-166 | a stored message reads back with no reactors and other messages are untouched |
| CatStats.UpdatedReactionsReadBack | src/main/java/edu/mines/mmsbot/data/util/CatStatsUtils.java:168-196 | after updateReactions the message reads back exactly its users and other messages are untouched |
| CatStats.CollectSpec | src/main/java/edu/mines/mmsbot/data/util/CatStatsUtils.java:73-77 | a per-row loop that may throw succeeds with one result per row, or fails exactly when some row fails, with that row's error |
| CatStats.MessageStatsSpec | src/main/java/edu/mines/mmsbot/data/util/CatStatsUtils.java:73-77 | one entry per row with its id and the length of its extracted list; fails with NumberFormatException exactly when some row's list does |
| CatStats.MessageStatsFailure | src/main/java/edu/mines/mmsbot/data/util/CatStatsUtils.java:75 | one bad row makes the message scan throw |
| CatStats.Take | src/main/java/edu/mines/mmsbot/data/util/CatStatsUtils.java:81 | limit(n) is the prefix of length min(n, size) |
| CatStats.TopOfSpec | src/main/java/edu/mines/mmsbot/data/util/CatStatsUtils.java:79-82 | min(limit, size) entries, non-increasing counts, drawn from the stats, none left out with a higher count than the last, and the sort is stable among equal counts |
| CatStats.GetTopMessages | src/main/java/edu/mines/mmsbot/data/util/CatStatsUtils.java:65-89 | the row loop and the sort compute TopMessages, IllegalArgumentException for a negative limit |
| CatStats.UserListsSpec | src/main/java/edu/mines/mmsbot/data/util/CatStatsUtils.java:99-100 | one extracted list per row, failing exactly when some row's list fails |
| CatStats.RowFails | src/main/java/edu/mines/mmsbot/data/util/CatStatsUtils.java:100 | one bad row makes the user scan throw |
| CatStats.MergeCounts | src/main/java/edu/mines/mmsbot/data/util/CatStatsUtils.java:102-104 | merging a row's users adds each user's number of occurrences in that row |
| CatStats.Tally | src/main/java/edu/mines/mmsbot/data/util/CatStatsUtils.java:97-105 | each user's total is their number of occurrences across all rows, duplicates within a row included |
| CatStats.MergeTally | src/main/java/edu/mines/mmsbot/data/util/CatStatsUtils.java:99-105 | merging one more row into the tally of the earlier rows is the tally of all of them |
| CatStats.MergeRow | src/main/java/edu/mines/mmsbot/data/util/CatStatsUtils.java:102-104 | the merge loop computes Merge, and its key list stays a duplicate-free listing of the map's users |
| CatStats.TallyRows | src/main/java/edu/mines/mmsbot/data/util/CatStatsUtils.java:99-105 | the row loop succeeds exactly when every row's list parses, and then holds the tally of all rows |
| CatStats.Entries | src/main/java/edu/mines/mmsbot/data/util/CatStatsUtils.java:107 | one (user, count) entry per user |
| CatStats.TopOfEntries | src/main/java/edu/mines/mmsbot/data/util/CatStatsUtils.java:107-110 | sorting the entries by count descending and taking limit gives a top-users list |
| CatStats.GetTopUsers | src/main/java/edu/mines/mmsbot/data/util/CatStatsUtils.java:91-117 | NumberFormatException when a row fails and IllegalArgumentException for a negative limit; otherwise min(limit, users) distinct users with their totals, non-increasing, none left out with a higher total than the last |
| StatsReport.NewReport | src/main/java/edu/mines/mmsbot/data/util/StatsReport.java:15-18 | the report is stamped with the construction time and serves exactly the embeds of the given map |
| StatsReport.Report.GetEmbed | src/main/java/edu/mines/mmsbot/data/util/StatsReport.java:20-25 | null exactly for a kind not cached, otherwise the cached embed |
| StatsReport.ExpiredIffTooOld | src/main/java/edu/mines/mmsbot/data/util/StatsReport.java:27-33 | a report is expired exactly when its age exceeds 900000 ms |
| StatsReport.ExpiryBoundary | src/main/java/edu/mines/mmsbot/data/util/StatsReport.java:13-29 | at exactly fifteen minutes a report is fresh, one millisecond later expired; at creation its age is 0 |
| StatsReport.ExpiryMonotone | src/main/java/edu/mines/mmsbot/data/util/StatsReport.java:27-33 | once expired a report stays expired, and its age never decreases |
| ClaimListener.RemovePrefixes | src/main/java/edu/mines/mmsbot/bot/listeners/ClaimListener.java:41 | removing the prefixes never lengthens the id |
| ClaimListener.RemovePrefixesUnchanged | src/main/java/edu/mines/mmsbot/bot/listeners/ClaimListener.java:41 | text without 'l' or 'o' is left unchanged |
| ClaimListener.RemoveLeadingPrefix | src/main/java/edu/mines/mmsbot/bot/listeners/ClaimListener.java:41 | a leading prefix is dropped and the scan continues after it |
| ClaimListener.DecodeEncode | src/main/java/edu/mines/mmsbot/bot/listeners/ClaimListener.java:38-42 | decoding createClaimButton's id gives back the lock flag and the event id, for every long id |
| ClaimListener.DecodeFailedInsert | src/main/java/edu/mines/mmsbot/bot/listeners/ClaimListener.java:38-42 | the failed-insert id -1 decodes as -1 under either prefix |
| ClaimListener.DecodeBothPrefixes | src/main/java/edu/mines/mmsbot/bot/listeners/ClaimListener.java:40-42 | a lock prefix before an open button id is still a lock event with the same id: both prefixes go |
| ClaimListener.DecodeNonNumeric | src/main/java/edu/mines/mmsbot/bot/listeners/ClaimListener.java:41-42 | "open-event_abc" is an open event whose id throws NumberFormatException |
| ClaimListener.LastStampSpec | src/main/java/edu/mines/mmsbot/bot/listeners/ClaimListener.java:78-82 | the chosen embed timestamp is absent exactly when no embed has one, and otherwise is the last one present |
| ClaimListener.StampUsed | src/main/java/edu/mines/mmsbot/bot/listeners/ClaimListener.java:76-86 | the embed loop returns the last embed timestamp, or the creation time when none exists |
| ClaimListener.UnclaimableNamesClaimer | src/main/java/edu/mines/mmsbot/data/util/OpStatsUtils.java:38 | an existing event that cannot be claimed already names a real user |
| ClaimListener.OnButtonInteraction | src/main/java/edu/mines/mmsbot/bot/listeners/ClaimListener.java:22-73 | a member without the key-holder role is refused before any claim; a bad id throws; an SQL error leaves the table; otherwise the table is claimed and the redraw names the clicker (won), the stored claimer (already claimed), or NullPointerException (no such event) |
| TimeUtils.Decompose | src/main/java/edu/mines/mmsbot/util/TimeUtils.java:37-47 | hours < 24, minutes < 60, seconds < 60, millis < 1000, and the weighted sum is the input |
| TimeUtils.AppendUnit | src/main/java/edu/mines/mmsbot/util/TimeUtils.java:57-65 | returns the remainder after the unit, and appends the unit's piece exactly when its value is positive |
| TimeUtils.AppendUnits | src/main/java/edu/mines/mmsbot/util/TimeUtils.java:44-47 | the four calls leave the millisecond remainder and the joined day to second pieces |
| TimeUtils.AppendMillis | src/main/java/edu/mines/mmsbot/util/TimeUtils.java:49-52 | the millisecond piece is appended only with includeMillis and a positive remainder |
| TimeUtils.PiecesWithMillis | src/main/java/edu/mines/mmsbot/util/TimeUtils.java:44-52 | the pieces with millis are the pieces without, plus the millisecond piece |
| TimeUtils.FormatDuration | src/main/java/edu/mines/mmsbot/util/TimeUtils.java:32-55 | returns DurationText: IllegalArgumentException for a negative input, else the nonzero units day to millisecond joined by ", ", or "0 milliseconds" |
| TimeUtils.ZeroText | src/main/java/edu/mines/mmsbot/util/TimeUtils.java:54 | the result is "0 milliseconds" exactly for input 0, or input below 1000 without millis |
| TimeUtils.SingularExactlyForOne | src/main/java/edu/mines/mmsbot/util/TimeUtils.java:61 | a unit name is singular exactly when its value is 1 |
| TimeUtils.DurationExample | src/main/java/edu/mines/mmsbot/util/TimeUtils.java:37-52 | one of each unit gives "1 day", "1 hour", "1 minute", "1 second" and, with millis, "1 millisecond" |
| TimeUtils.TwoHoursExample | src/main/java/edu/mines/mmsbot/util/TimeUtils.java:32-55 | two hours formats as "2 hours" |
| TimeUtils.DisplayHour | src/main/java/edu/mines/mmsbot/util/TimeUtils.java:25-26 | the displayed hour is in 1..12 |
| TimeUtils.TwoDigits | src/main/java/edu/mines/mmsbot/util/TimeUtils.java:29 | %02d writes two digits with the minute's value |
| TimeUtils.FormatTimeCases | src/main/java/edu/mines/mmsbot/util/TimeUtils.java:21-30 | hour 0 is 12 AM, 1-11 AM, 12 is 12 PM, 13-23 is hour - 12 PM |
| TimeUtils.DialRoundTrip | src/main/java/edu/mines/mmsbot/util/TimeUtils.java:25-27 | the displayed hour and period give back the hour |
| TimeUtils.FormatTimeLayout | src/main/java/edu/mines/mmsbot/util/TimeUtils.java:29 | the text is the display hour, one separator, the two minute digits, one separator, and the period |
| TimeUtils.FormatTimeInjective | src/main/java/edu/mines/mmsbot/util/TimeUtils.java:21-30 | different times of day never format to the same text |
| VersionComparator.LeadingDigits | MMSBotUpdater/src/main/java/edu/mines/mmsbotupdater/VersionComparator.java:21 | replaceAll("[^0-9].*", "") keeps exactly the leading digit run |
| VersionComparator.ParseVersionPart | MMSBotUpdater/src/main/java/edu/mines/mmsbotupdater/VersionComparator.java:19-25 | a part's value is between 0 and Integer.MAX_VALUE |
| VersionComparator.DigitPart | MMSBotUpdater/src/main/java/edu/mines/mmsbotupdater/VersionComparator.java:19-25 | a digit string parses to its value when it fits an int, and otherwise to 0 |
| VersionComparator.SuffixIgnored | MMSBotUpdater/src/main/java/edu/mines/mmsbotupdater/VersionComparator.java:21 | anything after the leading digits is ignored |
| VersionComparator.ParsePartExamples | MMSBotUpdater/src/main/java/edu/mines/mmsbotupdater/VersionComparator.java:19-25 | "3-beta" is 3, "10rc1" is 10, "" and "beta" are 0 |
| VersionComparator.PartsOf | MMSBotUpdater/src/main/java/edu/mines/mmsbotupdater/VersionComparator.java:5-11 | one parsed value per piece |
| VersionComparator.PieceAt | MMSBotUpdater/src/main/java/edu/mines/mmsbotupdater/VersionComparator.java:10-11 | the part at an index, 0 past the end |
| VersionComparator.IsNewer | MMSBotUpdater/src/main/java/edu/mines/mmsbotupdater/VersionComparator.java:4-17 | the loop with early returns computes Newer |
| VersionComparator.CompareFromSpec | MMSBotUpdater/src/main/java/edu/mines/mmsbotupdater/VersionComparator.java:9-16 | the loop answers true exactly when the first differing part is greater in latest |
| VersionComparator.NewerIsLexGreater | MMSBotUpdater/src/main/java/edu/mines/mmsbotupdater/VersionComparator.java:8-16 | isNewer is the lexicographic order on parts padded with zeros |
| VersionComparator.Irreflexive | MMSBotUpdater/src/main/java/edu/mines/mmsbotupdater/VersionComparator.java:9-16 | no version is newer than itself |
| VersionComparator.Asymmetric | MMSBotUpdater/src/main/java/edu/mines/mmsbotupdater/VersionComparator.java:9-16 | two versions are never each newer than the other |
| VersionComparator.Transitive | MMSBotUpdater/src/main/java/edu/mines/mmsbotupdater/VersionComparator.java:9-16 | the order is transitive |
| VersionComparator.SameParts | MMSBotUpdater/src/main/java/edu/mines/mmsbotupdater/VersionComparator.java:8-11 | versions whose zero-padded parts agree compare the same |
| VersionComparator.TrailingZero | MMSBotUpdater/src/main/java/edu/mines/mmsbotupdater/VersionComparator.java:8-11 | a trailing 0 part changes nothing: neither side is newer |
| VersionComparator.NumericNotTextual | MMSBotUpdater/src/main/java/edu/mines/mmsbotupdater/VersionComparator.java:10-14 | "1.10" is newer than "1.9" and not the other way round |
| VersionComparator.PaddedEqual | MMSBotUpdater/src/main/java/edu/mines/mmsbotupdater/VersionComparator.java:8-11 | "1.0" and "1.0.0" are equal: neither is newer |
| CommandLine.JoinFlags | src/main/java/edu/mines/mmsbot/util/Args.java:12-15 | the loop appends every entry followed by one space |
| CommandLine.KeyEnd | src/main/java/edu/mines/mmsbot/util/Args.java:18 | the greedy [A-Za-z0-9]+ run ends at the first other character |
| CommandLine.ValueEnd | src/main/java/edu/mines/mmsbot/util/Args.java:18 | the greedy [^"]+ run ends at the first quote |
| CommandLine.MatchAt | src/main/java/edu/mines/mmsbot/util/Args.java:18 | a match at p has the shape --KEY="VALUE" with a non-empty key of letters and digits and a non-empty value without quotes |
| CommandLine.MatchAtComplete | src/main/java/edu/mines/mmsbot/util/Args.java:18 | conversely, any --KEY="VALUE" at p, with a non-empty key of letters and digits and a non-empty quote-free value, is the match at p |
| CommandLine.FindAllSkip | src/main/java/edu/mines/mmsbot/util/Args.java:19-22 | positions where no match starts are passed over without reporting anything |
| CommandLine.FindAllOccurrence | src/main/java/edu/mines/mmsbot/util/Args.java:19-22 | each occurrence the scan reaches is reported: with no match in between, the scan from p reports the --KEY="VALUE" at q first and resumes just past its closing quote |
| CommandLine.FindAll | src/main/java/edu/mines/mmsbot/util/Args.java:19-22 | every match found has a non-empty key of key characters and a non-empty quote-free value |
| CommandLine.RecordLastWins | src/main/java/edu/mines/mmsbot/util/Args.java:20-22 | a key is recorded exactly when some match has it, with the value of its last match |
| CommandLine.ScanFlags | src/main/java/edu/mines/mmsbot/util/Args.java:19-22 | the matcher loop records Record(FindAll(text)) |
| CommandLine.Args.constructor | src/main/java/edu/mines/mmsbot/util/Args.java:11-23 | the map is the one recorded from the joined, trimmed flags |
| CommandLine.ArgsValuesNonEmpty | src/main/java/edu/mines/mmsbot/util/Args.java:18-22 | every recorded value is non-empty and quote-free |
| CommandLine.GetArgOf | src/main/java/edu/mines/mmsbot/util/Args.java:29-33 | getArg returns the value of a recorded non-empty value, and otherwise throws NullPointerException |
| CommandLine.Args.GetArg | src/main/java/edu/mines/mmsbot/util/Args.java:29-33 | succeeds exactly for a recorded non-empty value and returns it; an absent key or an empty value throws NullPointerException |
| CommandLine.SpanningValue | src/main/java/edu/mines/mmsbot/util/Args.java:12-22 | --token="a and b" in two entries record token ↦ "a b" |
| CommandLine.UnquotedIgnored | src/main/java/edu/mines/mmsbot/util/Args.java:18-20 | text without quotes, such as --k=v, records nothing |
| CommandLine.EmptyValueIgnored | src/main/java/edu/mines/mmsbot/util/Args.java:18-20 | --k="" records nothing |
| JavaMath.Div | src/main/java/edu/mines/mmsbot/data/util/OpStatsUtils.java:153 | long division truncates toward zero: the remainder has the dividend's sign and is smaller than the divisor |
| JavaMath.DivBetween | src/main/java/edu/mines/mmsbot/data/util/OpStatsUtils.java:365 | a truncated mean stays within the bounds of the values |
| JavaMath.SumPermutation | src/main/java/edu/mines/mmsbot/data/util/OpStatsUtils.java:148-150 | sorting does not change the sum |
| Strings.Split | src/main/java/edu/mines/mmsbot/data/util/CatStatsUtils.java:193 | the pieces between the separators, trailing empty pieces included: at least one piece, none containing the separator |
| Strings.DropTrailingEmpty | src/main/java/edu/mines/mmsbot/data/util/CatStatsUtils.java:193 | a prefix of the pieces that ends in a non-empty piece, with only empty pieces cut off |
| Strings.StringSplit | src/main/java/edu/mines/mmsbot/data/util/CatStatsUtils.java:193 | String.split: text without the separator comes back whole; otherwise the pieces between the separators minus the trailing empty ones, none containing the separator |
| Strings.StringSplitPieces | MMSBotUpdater/src/main/java/edu/mines/mmsbotupdater/VersionComparator.java:5-6 | String.split returns a prefix of the full list of pieces, and only empty pieces are cut off |
| CatStats.StringSplitNonBlank | src/main/java/edu/mines/mmsbot/data/util/CatStatsUtils.java:193-194 | the isBlank filter sees the same pieces whether or not the trailing empty ones are dropped |
| VersionComparator.PartsPadded | MMSBotUpdater/src/main/java/edu/mines/mmsbotupdater/VersionComparator.java:5-11 | the parts of the pieces String.split returns agree, once padded with 0, with the parts of every piece between the dots |
| VersionComparator.NewerAllParts | MMSBotUpdater/src/main/java/edu/mines/mmsbotupdater/VersionComparator.java:4-17 | isNewer gives the same answer on the split pieces as on every piece between the dots |
| Strings.SplitJoin | src/main/java/edu/mines/mmsbot/data/util/CatStatsUtils.java:185-193 | splitting joined separator-free parts gives them back |
| Strings.Trim | src/main/java/edu/mines/mmsbot/util/Args.java:16 | trimming never lengthens the text, and the result is empty or starts and ends above U+0020 |
| Strings.TrimSpec | src/main/java/edu/mines/mmsbot/util/Args.java:16 | the result is a slice of the text, and everything cut off on either side is at or below U+0020 |
| Decimal.NatToString | src/main/java/edu/mines/mmsbot/data/util/CatStatsUtils.java:184 | a natural number's text is digits without a leading zero |
| Decimal.DigitsValueOfNat | src/main/java/edu/mines/mmsbot/data/util/CatStatsUtils.java:184 | the digits of n read back as n |
| Decimal.ParseLong | src/main/java/edu/mines/mmsbot/data/util/CatStatsUtils.java:195 | a parsed long is in the long range |
| Decimal.ParseLongFromInt | src/main/java/edu/mines/mmsbot/data/util/CatStatsUtils.java:184-195 | Long.parseLong(String.valueOf(n)) == n for every long |
| Decimal.ParseInt | MMSBotUpdater/src/main/java/edu/mines/mmsbotupdater/VersionComparator.java:21 | a parsed int is in the int range |
| Sorting.SortBy | src/main/java/edu/mines/mmsbot/data/util/CatStatsUtils.java:79-80 | the stable sort is a sorted permutation that keeps the order of equal keys |
| Sorting.SortAscending | src/main/java/edu/mines/mmsbot/data/util/OpStatsUtils.java:148 | durations.sort gives an ascending permutation |
| Sorting.AscendingUnique | src/main/java/edu/mines/mmsbot/data/util/OpStatsUtils.java:148 | two ascending permutations of the same values are equal |

## Left out

- The one-line accessors `SpaceStatus.GetState`, `SpaceStatus.IsSpaceLocked`,
  `Monitor.GetLastStableState`, `Report.GetAge`, `Report.GetGeneratedAt`,
  `Store.GetEvent` and `Store.GetLastEvent` have no rows of their own. Each
  reads a field or wraps a function: the state ensures of the methods cover
  the first three; NewReport and ExpiredIffTooOld cover the report's two; Find, LastEvent
  and OffsetsListEveryEvent cover the store lookups.
- The SQLite and JDBC mechanics are left out: connections, WAL, schema, shutdown. The tables are in-memory sequences of rows.
- An `SQLException` is a boolean parameter of the call it affects. The zeroed records that the statistics methods return on such an exception are not modelled; the scans always succeed.
- EventStore.Store.LogEvent: the case where the INSERT succeeds but no generated key comes back is not modelled. The code then stores the row and still returns -1; in the model a failed insert stores nothing.
- EventStore.Find and EventStore.LastEvent: the null that `getEvent` and `getLastEvent` return on an `SQLException` is not modelled; lookups always reach the table.
- The defensive `EnumMap` copy in the `StatsReport` constructor needs no statement: Dafny maps are values, so a report cannot see later changes to the caller's map.
- The standard deviation in `buildStats` is left out: it is double and float arithmetic (`Math.pow`, `Math.sqrt`).
- Sessions.BuildStats: does not compute `standardDeviation`, for the reason above.
- Time-zone and calendar conversion is left out:
  - `ZoneId.systemDefault`, `LocalDate.now` and `DayOfWeek` become function parameters (`secondOfDay`, `dayOf`, `dateOf`) and a `today` parameter;
  - `System.currentTimeMillis` and `Instant.now` become a `now` parameter counted in whole milliseconds, so the sub-millisecond precision of `Instant` in `isExpired` is not modelled (Java already reports a report expired 1 µs past fifteen minutes, the model only 1 ms past);
  - `LocalTime.ofSecondOfDay` is left as the second count.
- `TimeUtils.formatDate` and `formatDayTime` are left out: they depend on `SimpleDateFormat`, the default zone and the default locale.
- 64-bit and 32-bit overflow is not modelled for sums, durations, ids or counters. Integers are unbounded, except where the source parses: `parseLong` and `parseInt` check the long and int ranges.
- JavaMath.Div: specified for positive divisors only, the only ones the callers use (list sizes).
- Discord and JDA are left out: notifications, embeds, claim-button cleanup, status updates, command guards and replies, and listener registration. The two commands' manual-then-override composition is kept (`OpenCommand`, `LockCommand`).
- Threads, GPIO setup, `Thread.sleep`, interruption, the stdin-driven virtual monitor and `stopMonitoring` are left out of the door monitor.
- The unsynchronised interleaving of the monitor thread with Discord callbacks is concurrency and is not modelled: each call is atomic.
- The asynchronous `CatStatsUtils` helpers are left out: `populateTable`, `updateTable`, `updateMessage` and `pullMessages` are JDA futures over channel history.
- CatStats.GetTopUsers: the result is specified for every order the `HashMap` might iterate its entries in. It is not pinned to one order because `HashMap` iteration order is unspecified.
- CatStats.GetTopMessages: an unordered `SELECT` fixes no row order, and the model reads the rows in insertion order. The order only decides ties in the stable sort by count, so among messages with equal counts the model's choice is one possible answer, not the only one.
- The `StatType` titles and descriptions are display text and are left out. The embed type is a type parameter.
- `getArgs` is left out: it only exposes the map, which is the `args` field.
- `Long.parseLong` and `Integer.parseInt` are modelled on ASCII digits. The other Unicode decimal digits they accept are not modelled. (`isBlank` follows `Character.isWhitespace`, Unicode separators included.)
- ClaimListener.StampUsed: the timestamp -1 doubles as the loop's "none found" value. An embed stamped at exactly -1 ms therefore falls back to the creation time. The model keeps this behaviour.
- ClaimListener.OnButtonInteraction: when `getEvent` finds no row (for example the button of a failed insert, id -1), the call throws `NullPointerException`; the model reports this as an outcome.
- The web `DoorMonitor` and `OverrideCommand` are left out: they call `SpaceStatus` methods that do not exist in this version.
- The auto-updater is left out apart from `VersionComparator`: GitHub client, downloader, jar manager and main.
- `MMSApp`, `MMSContext`, `Config` loading and the build are left out. `debounceSeconds` is the monitor's `threshold` parameter.
