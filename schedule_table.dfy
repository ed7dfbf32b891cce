/** The "new" flag of the schedule table (components/ScheduleTable.tsx): an
    event is marked as recently changed for five minutes after its last
    modification. */
module ScheduleTable {
  import opened Types

  /** `NEW_DURATION_MS`: five minutes, in milliseconds. */
  const NewDurationMs: int := 5 * 60 * 1000

  /** `event.lastModified && (currentTime - event.lastModified < NEW_DURATION_MS)`:
      an absent or zero timestamp is falsy, so it never flags the event. */
  predicate IsNew(e: ScheduleEvent, currentTime: int) {
    e.lastModified.Some? && e.lastModified.value != 0
    && currentTime - e.lastModified.value < NewDurationMs
  }

  /** An event with no timestamp, or a zero one, is never new. */
  lemma UnstampedNeverNew(e: ScheduleEvent, currentTime: int)
    requires e.lastModified == None || e.lastModified == Some(0)
    ensures !IsNew(e, currentTime)
  {
  }

  /** With a non-zero timestamp, an event is new exactly while less than 300000 ms have passed. */
  lemma NewExactlyWithinWindow(e: ScheduleEvent, stamp: int, currentTime: int)
    requires e.lastModified == Some(stamp) && stamp != 0
    ensures IsNew(e, currentTime) <==> currentTime - stamp < 300000
  {
  }

  /** The window is half-open: new one millisecond before it closes, no longer new when it closes. */
  lemma WindowIsStrict(e: ScheduleEvent, stamp: int)
    requires e.lastModified == Some(stamp) && stamp != 0
    ensures IsNew(e, stamp + 299999)
    ensures !IsNew(e, stamp + 300000)
  {
  }

  /** A timestamp later than the current time counts as new. */
  lemma FutureStampIsNew(e: ScheduleEvent, stamp: int, currentTime: int)
    requires e.lastModified == Some(stamp) && stamp != 0 && currentTime < stamp
    ensures IsNew(e, currentTime)
  {
  }

  /** Once an event stops being new, it stays so as time goes on. */
  lemma NewnessNeverReturns(e: ScheduleEvent, earlier: int, later: int)
    requires earlier <= later && !IsNew(e, earlier)
    ensures !IsNew(e, later)
  {
  }
}
