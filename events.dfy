/** The rows of the `events` table: OpStatsUtils.Event and OpStatsUtils.EventType. */
module Events {

  /** The five kinds of event the state machine logs. */
  datatype EventType = OPEN | LOCK | OVERRIDE_OPEN | OVERRIDE_LOCK | CLEAR_OVERRIDE

  /** The user id stored for events no human initiated (sensor-driven ones). */
  const SYSTEM_USER: int := -1

  /** A logged event: epoch-millisecond timestamp, kind, and the initiating user id. */
  datatype Event = Event(timestamp: int, eventType: EventType, userID: int)

  /** Timestamps never decrease along the sequence: the order of `ORDER BY timestamp`. */
  predicate TimeOrdered(events: seq<Event>) {
    forall i, j :: 0 <= i < j < |events| ==> events[i].timestamp <= events[j].timestamp
  }

  /** The number of events of the given kind. */
  function CountType(events: seq<Event>, t: EventType): nat {
    if events == [] then 0
    else CountType(events[..|events| - 1], t) + (if events[|events| - 1].eventType == t then 1 else 0)
  }
}
