/** One schedule entry: hold a byte set-point for a number of days, timed
    against the millisecond clock. The clock (`millis()`) is a parameter. */
module TempSchedules {
  import opened Unsigned

  /** Milliseconds per day, the factor the constructor multiplies by. */
  const MS_PER_DAY: int := 86400000

  /** The largest day count whose duration fits in an `unsigned long`. */
  const MAX_EXACT_DAYS: int := 49

  /** A schedule entry: `_temperature`, `_duration` (ms) and `_startTime`
      (a clock reading). */
  datatype TempSchedule = TempSchedule(temperature: byte, duration: u32, startTime: u32)
  {
    /** The clock reading the entry is timed from. */
    function GetStart(): (t: u32)
      ensures this.(startTime := t) == this
    {
      startTime
    }

    /** Whether the entry's duration has elapsed at clock reading `now`,
        using wraparound-safe unsigned subtraction. */
    predicate IsDone(now: u32): (done: bool)
      ensures startTime <= now ==> (done <==> now - startTime >= duration)
      ensures now < startTime ==> (done <==> now - startTime + TWO_32 >= duration)
    {
      Sub32(now, startTime) >= duration
    }

    /** The entry restamped to start at `t`; everything else is kept. */
    function SetStartTime(t: u32): (r: TempSchedule)
      ensures r.GetStart() == t
      ensures r.temperature == temperature && r.duration == duration
    {
      this.(startTime := t)
    }
  }

  /** The constructor: `days * 86400000` in `unsigned long` arithmetic, timer
      started at the clock reading `now`. */
  function NewTempSchedule(temperature: byte, days: u32, now: u32): (r: TempSchedule)
    ensures r.temperature == temperature && r.GetStart() == now
    ensures (days * MS_PER_DAY - r.duration) % TWO_32 == 0
    ensures days <= MAX_EXACT_DAYS ==> r.duration == days * MS_PER_DAY
  {
    TempSchedule(temperature, Wrap32(days * MS_PER_DAY), now)
  }

  /** Fifty days or more overflow the 32-bit product: fifty days come out as
      less than one day. */
  lemma FiftyDaysWrap(temperature: byte, now: u32)
    ensures NewTempSchedule(temperature, 50, now).duration == 50 * MS_PER_DAY - TWO_32
    ensures NewTempSchedule(temperature, 50, now).duration < MS_PER_DAY
  {
  }

  /** The wrap can reach zero: `86400000 = 2^10 * 84375`, so any multiple
      of `2^22` days gives a duration of 0, like `days == 0`. */
  lemma ZeroDurationDays(temperature: byte, now: u32)
    ensures NewTempSchedule(temperature, 0x40_0000, now).duration == 0
    ensures NewTempSchedule(temperature, 0x40_0001, now).duration == MS_PER_DAY
  {
  }

  /** The expiry window: `elapsed` milliseconds after the start (reduced
      onto the 32-bit clock, so across a clock wrap too) the entry is done
      exactly when `elapsed` has reached the duration. */
  lemma {:induction false} IsDoneAfter(e: TempSchedule, elapsed: nat)
    requires elapsed < TWO_32
    ensures e.IsDone(Wrap32(e.startTime + elapsed)) <==> elapsed >= e.duration
  {
    var now := Wrap32(e.startTime + elapsed);
    if e.startTime + elapsed < TWO_32 {
      assert now == e.startTime + elapsed;
    } else {
      assert now == e.startTime + elapsed - TWO_32;
    }
    assert Sub32(now, e.startTime) == elapsed;
  }

  /** A freshly constructed entry is done at its own start time only when
      its duration is zero. */
  lemma {:induction false} FreshEntryDone(temperature: byte, days: u32, now: u32)
    ensures NewTempSchedule(temperature, days, now).IsDone(now)
            <==> NewTempSchedule(temperature, days, now).duration == 0
  {
    IsDoneAfter(NewTempSchedule(temperature, days, now), 0);
  }
}
