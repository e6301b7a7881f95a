/**
 * The tables the pipeline works on: meter readings, the activity schedule,
 * and readings tagged with their silence flag.
 */
module Readings {

  /** Timestamps are whole seconds; a time of day is the second within its day. */
  const MINUTE: int := 60
  const DAY: int := 86400

  type TimeOfDay = t: int | 0 <= t < 86400

  /** One meter reading: `timestamp, building, resource, usage`. */
  datatype Reading = Reading(timestamp: int, building: string, resource: string, usage: real)

  /** One schedule row: `building, start_time, end_time, expected_activity`. */
  datatype Rule = Rule(building: string, startTime: TimeOfDay, endTime: TimeOfDay, expectedActivity: string)

  /** A reading with the `is_silence` column added. */
  datatype Tagged = Tagged(reading: Reading, isSilence: bool)

  /** The (building, resource) pair that baselines are grouped by and joined on. */
  datatype Key = Key(building: string, resource: string)

  function KeyOf(r: Reading): Key
  {
    Key(r.building, r.resource)
  }

  /** `timestamp.time()`: the time of day a timestamp falls on. */
  function TimeOfDayOf(timestamp: int): (t: TimeOfDay)
    ensures (timestamp - t) % DAY == 0
    ensures 0 <= timestamp < DAY ==> t == timestamp
  {
    timestamp % DAY
  }

  /** Dropping the `is_silence` column again. */
  function Untag(rows: seq<Tagged>): (r: seq<Reading>)
    ensures |r| == |rows|
    ensures forall i :: 0 <= i < |rows| ==> r[i] == rows[i].reading
  {
    seq(|rows|, i requires 0 <= i < |rows| => rows[i].reading)
  }
}
