/** The 32-bit millisecond clock (base/base_time.h). */
module Clock {
  import opened Arithmetic

  const CLOCK_RANGE := 0x1_0000_0000

  /** What GetMilliSeconds returns at a time. */
  function Reading(time: nat): (r: nat)
    ensures r < CLOCK_RANGE && r <= time
  {
    time % CLOCK_RANGE
  }

  /** The deadline kept of an event that was posted at a time with a delay: a sum of readings, cut to 32 bits. */
  function DeadlineAfter(posted: nat, delay: nat): (r: nat)
    ensures r < CLOCK_RANGE
  {
    (Reading(posted) + delay) % CLOCK_RANGE
  }

  /** The deadline is the reading at the time the event is due. */
  lemma DeadlineIsReading(posted: nat, delay: nat)
    ensures DeadlineAfter(posted, delay) == Reading(posted + delay)
  {
    var q, r := posted / CLOCK_RANGE, posted % CLOCK_RANGE;
    var p, d := (r + delay) / CLOCK_RANGE, (r + delay) % CLOCK_RANGE;
    assert posted + delay == (q + p) * CLOCK_RANGE + d;
    RemainderIs(posted + delay, q + p, d, CLOCK_RANGE);
  }
}
