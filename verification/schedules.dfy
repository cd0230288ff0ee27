/** The `Schedules` object: a fixed three-slot ring of schedule entries with
    a current index and a count, advanced by polling `Next` with the clock.

    The class works in place on an array; its value view `Ring` and the pure
    functions `AfterAdd` and `AfterNext` say what each call does, and the
    lemmas below state the ring's properties about those functions. */
module ScheduleRing {
  import opened Unsigned
  import opened TempSchedules

  /** `SCHEDULES_MAX_COUNT`: the capacity, and the length of the slot array. */
  const SCHEDULES_MAX_COUNT: byte := 3

  datatype Option<T> = None | Some(value: T)

  /** Value view of a `Schedules` object: the slot array (`None` for a slot
      never written), `_currentSchedule` and `_schedulesCount`. */
  datatype Ring = Ring(slots: seq<Option<TempSchedule>>, current: nat, count: nat)

  /** Number of slots that hold an entry. */
  function Held(slots: seq<Option<TempSchedule>>): (n: nat)
    ensures n <= |slots|
  {
    if slots == [] then 0
    else (if slots[0].Some? then 1 else 0) + Held(slots[1..])
  }

  /** The ring's invariant: three slots, a current index inside them, a count
      within capacity that is never below the number of held entries, and a
      filled current slot as soon as anything was added. */
  predicate WellFormed(q: Ring)
  {
    && |q.slots| == SCHEDULES_MAX_COUNT as int
    && q.current < SCHEDULES_MAX_COUNT as int
    && q.count <= SCHEDULES_MAX_COUNT as int
    && Held(q.slots) <= q.count
    && (q.count > 0 ==> q.slots[q.current].Some?)
  }

  /** A ring in which every slot holds an entry. */
  predicate AllFilled(q: Ring)
  {
    forall i :: 0 <= i < |q.slots| ==> q.slots[i].Some?
  }

  /** The state the constructor establishes. */
  function Initial(): (q: Ring)
    ensures WellFormed(q) && Held(q.slots) == 0
  {
    Ring([None, None, None], 0, 0)
  }

  /** Slot that `addTempSchedule` writes: the one `count` places after the
      current one, around the ring. */
  function AddSlot(q: Ring): (k: nat)
    ensures k < 3
  {
    (q.current + q.count) % 3
  }

  /** `addTempSchedule(temperature, days)` at clock reading `now`: the new
      state and the returned flag. */
  function AfterAdd(q: Ring, temperature: byte, days: u32, now: u32): (r: (Ring, bool))
    requires WellFormed(q)
    ensures WellFormed(r.0)
    ensures r.1 <==> q.count < SCHEDULES_MAX_COUNT as int
    ensures r.0.count == if r.1 then q.count + 1 else q.count
    ensures r.0.current == q.current
    ensures AllFilled(q) ==> AllFilled(r.0)
  {
    if q.count < SCHEDULES_MAX_COUNT as int then
      var k := AddSlot(q);
      HeldUpdate(q.slots, k, NewTempSchedule(temperature, days, now));
      (q.(slots := q.slots[k := Some(NewTempSchedule(temperature, days, now))],
          count := q.count + 1), true)
    else
      (q, false)
  }

  /** Whether `next()` at clock reading `now` would move onto a slot that was
      never written and dereference it: undefined behaviour in the source. */
  predicate Faults(q: Ring, now: u32)
    requires WellFormed(q)
  {
    && q.count > 0
    && q.slots[q.current].value.IsDone(now)
    && q.slots[(q.current + 1) % 3].None?
  }

  /** Whether `next()` at clock reading `now` advances. */
  predicate Expired(q: Ring, now: u32)
    requires WellFormed(q)
  {
    q.count > 0 && q.slots[q.current].value.IsDone(now)
  }

  /** `next()`: the new state and the returned flag. The source reads the
      clock twice: `now` is the reading `isDone` compares against and
      `restamp` the later one the newly current entry is restarted at. */
  function AfterNext(q: Ring, now: u32, restamp: u32): (r: (Ring, bool))
    requires WellFormed(q) && !Faults(q, now)
    ensures WellFormed(r.0)
    ensures r.1 <==> Expired(q, now)
    ensures r.0.count == q.count
    ensures AllFilled(q) ==> AllFilled(r.0)
  {
    if Expired(q, now) then
      var k := (q.current + 1) % 3;
      var restarted := q.slots[k].value.SetStartTime(restamp);
      HeldUpdate(q.slots, k, restarted);
      (q.(current := k, slots := q.slots[k := Some(restarted)]), true)
    else
      (q, false)
  }

  /** Writing an entry into a slot adds one held entry if the slot was empty
      and none if it was filled. */
  lemma {:induction false} HeldUpdate(s: seq<Option<TempSchedule>>, k: nat, e: TempSchedule)
    requires k < |s|
    ensures Held(s[k := Some(e)]) == if s[k].Some? then Held(s) else Held(s) + 1
  {
    if k > 0 {
      HeldUpdate(s[1..], k - 1, e);
      assert s[k := Some(e)][1..] == s[1..][k - 1 := Some(e)];
    }
  }

  /** A successful add: count grows by one, the new entry (timer started at
      `now`) lands in slot `(current + count) % 3`, nothing else changes. */
  lemma AddWithRoom(q: Ring, temperature: byte, days: u32, now: u32)
    requires WellFormed(q) && q.count < SCHEDULES_MAX_COUNT as int
    ensures var (r, ok) := AfterAdd(q, temperature, days, now);
      && ok
      && r.count == q.count + 1
      && r.current == q.current
      && r.slots[AddSlot(q)] == Some(NewTempSchedule(temperature, days, now))
      && forall i :: 0 <= i < 3 && i != AddSlot(q) ==> r.slots[i] == q.slots[i]
  {
  }

  /** An add to a full ring is refused and changes nothing. */
  lemma AddWhenFull(q: Ring, temperature: byte, days: u32, now: u32)
    requires WellFormed(q) && q.count == SCHEDULES_MAX_COUNT as int
    ensures AfterAdd(q, temperature, days, now) == (q, false)
  {
  }

  /** When the current entry is not done (or nothing was added), `next()`
      returns false and changes nothing (the second clock reading is never
      taken), so calling it again at the same reading gives the same answer
      and the same state. */
  lemma NextIdle(q: Ring, now: u32, restamp: u32)
    requires WellFormed(q) && !Expired(q, now)
    ensures !Faults(q, now)
    ensures AfterNext(q, now, restamp) == (q, false)
    ensures AfterNext(AfterNext(q, now, restamp).0, now, restamp) == (q, false)
  {
  }

  /** When the current entry is done, `next()` moves `current` one slot on,
      restamps that slot's entry with the second clock reading `restamp`
      (set-point and duration kept),
      leaves the count and the other slots alone and returns true. The count
      is not decremented: the expired entry stays in its slot. */
  lemma NextWhenDone(q: Ring, now: u32, restamp: u32)
    requires WellFormed(q) && Expired(q, now) && !Faults(q, now)
    ensures var (r, advanced) := AfterNext(q, now, restamp);
      var k := (q.current + 1) % 3;
      && advanced
      && r.current == k
      && r.count == q.count
      && r.slots[k].Some?
      && r.slots[k].value.startTime == restamp
      && r.slots[k].value.temperature == q.slots[k].value.temperature
      && r.slots[k].value.duration == q.slots[k].value.duration
      && r.slots[q.current] == q.slots[q.current]
      && forall i :: 0 <= i < 3 && i != k ==> r.slots[i] == q.slots[i]
  {
  }

  /** A ring whose slots are all filled never faults, and stays filled
      through every add and every advance. */
  lemma AllFilledStaysFilled(q: Ring, temperature: byte, days: u32, now: u32, restamp: u32)
    requires WellFormed(q) && AllFilled(q)
    ensures !Faults(q, now)
    ensures AllFilled(AfterNext(q, now, restamp).0)
    ensures AllFilled(AfterAdd(q, temperature, days, now).0)
  {
  }

  /** Three adds to a fresh ring fill slots 0, 1 and 2 in the order added,
      with `current` at the first, and a fourth add is refused. With
      `LapOrder`, entries become current in the order they were added. */
  lemma {:induction false} ThreeAddsFillInOrder(
    ta: byte, tb: byte, tc: byte, da: u32, db: u32, dc: u32, t0: u32, t1: u32, t2: u32, t3: u32)
    ensures
      var q1 := AfterAdd(Initial(), ta, da, t0).0;
      var q2 := AfterAdd(q1, tb, db, t1).0;
      var q3 := AfterAdd(q2, tc, dc, t2).0;
      && q3.current == 0 && q3.count == 3 && AllFilled(q3)
      && q3.slots == [Some(NewTempSchedule(ta, da, t0)),
                      Some(NewTempSchedule(tb, db, t1)),
                      Some(NewTempSchedule(tc, dc, t2))]
      && AfterAdd(q3, ta, da, t3) == (q3, false)
  {
    var q1 := AfterAdd(Initial(), ta, da, t0).0;
    AddWithRoom(Initial(), ta, da, t0);
    assert q1.slots == [Some(NewTempSchedule(ta, da, t0)), None, None];
    var q2 := AfterAdd(q1, tb, db, t1).0;
    AddWithRoom(q1, tb, db, t1);
    assert q2.slots == [Some(NewTempSchedule(ta, da, t0)), Some(NewTempSchedule(tb, db, t1)), None];
    var q3 := AfterAdd(q2, tc, dc, t2).0;
    AddWithRoom(q2, tc, dc, t2);
    AddWhenFull(q3, ta, da, t3);
  }

  /** On a filled ring, each expiry makes the next slot around the ring
      current and restarts its entry; after three expiries `current` is back
      where it was, the count unchanged: entries are never retired, and the
      entry that ran first is restarted at the third expiry. */
  lemma {:induction false} LapOrder(q: Ring, t1: u32, s1: u32, t2: u32, s2: u32, t3: u32, s3: u32)
    requires WellFormed(q) && AllFilled(q)
    requires Expired(q, t1)
    requires Expired(AfterNext(q, t1, s1).0, t2)
    requires Expired(AfterNext(AfterNext(q, t1, s1).0, t2, s2).0, t3)
    ensures
      var q1 := AfterNext(q, t1, s1).0;
      var q2 := AfterNext(q1, t2, s2).0;
      var q3 := AfterNext(q2, t3, s3).0;
      && q1.current == (q.current + 1) % 3
      && q1.slots[q1.current] == Some(q.slots[q1.current].value.SetStartTime(s1))
      && q2.current == (q.current + 2) % 3
      && q2.slots[q2.current] == Some(q.slots[q2.current].value.SetStartTime(s2))
      && q3.current == q.current
      && q3.count == q.count
      && q3.slots[q.current] == Some(q.slots[q.current].value.SetStartTime(s3))
  {
    var q1 := AfterNext(q, t1, s1).0;
    NextWhenDone(q, t1, s1);
    assert AllFilled(q1);
    var q2 := AfterNext(q1, t2, s2).0;
    NextWhenDone(q1, t2, s2);
    assert AllFilled(q2);
    assert q2.slots[q.current] == q.slots[q.current];
    NextWhenDone(q2, t3, s3);
  }

  /** An advance cannot land on an entry that is already done at the reading
      it was restarted at, unless that entry's duration is zero (`days == 0`,
      or any multiple of `2^22` days, since `days * 86400000` wraps mod 2^32):
      one advance per call is all that a positive duration ever allows. */
  lemma {:induction false} RestartedDoneOnlyIfZero(q: Ring, now: u32, restamp: u32)
    requires WellFormed(q) && Expired(q, now) && !Faults(q, now)
    ensures Expired(AfterNext(q, now, restamp).0, restamp)
            <==> q.slots[(q.current + 1) % 3].value.duration == 0
  {
    var k := (q.current + 1) % 3;
    NextWhenDone(q, now, restamp);
    IsDoneAfter(q.slots[k].value.SetStartTime(restamp), 0);
  }

  /** With a single entry added, `next()` faults exactly once that entry's
      duration has elapsed (across a clock wrap too): it moves onto slot 1,
      which was never written. */
  lemma {:induction false} SingleEntryFaults(temperature: byte, days: u32, t0: u32, elapsed: nat)
    requires elapsed < TWO_32
    ensures
      var q := AfterAdd(Initial(), temperature, days, t0).0;
      Faults(q, Wrap32(t0 + elapsed)) <==> elapsed >= NewTempSchedule(temperature, days, t0).duration
  {
    var e := NewTempSchedule(temperature, days, t0);
    AddWithRoom(Initial(), temperature, days, t0);
    IsDoneAfter(e, elapsed);
  }

  /** Because `next()` never lowers the count, an add after an advance is
      written over the entry that already ran, and the ring then reports
      three entries while it holds two, one slot never written. */
  lemma {:induction false} AddAfterNextOverwrites(
    ta: byte, tb: byte, tc: byte, t0: u32, t1: u32, s1: u32, t2: u32)
    requires t1 >= t0 + MS_PER_DAY
    ensures
      var q1 := AfterAdd(Initial(), ta, 1, t0).0;
      var q2 := AfterAdd(q1, tb, 1, t0).0;
      Expired(q2, t1) && !Faults(q2, t1) &&
      var q3 := AfterNext(q2, t1, s1).0;
      var q4 := AfterAdd(q3, tc, 1, t2).0;
      && q4.count == 3
      && Held(q4.slots) == 2
      && q4.slots[0] == Some(NewTempSchedule(tc, 1, t2))
      && q4.slots[2].None?
  {
    var a := NewTempSchedule(ta, 1, t0);
    var b := NewTempSchedule(tb, 1, t0);
    var q1 := AfterAdd(Initial(), ta, 1, t0).0;
    AddWithRoom(Initial(), ta, 1, t0);
    assert q1.slots == [Some(a), None, None];
    var q2 := AfterAdd(q1, tb, 1, t0).0;
    AddWithRoom(q1, tb, 1, t0);
    assert q2.slots == [Some(a), Some(b), None];
    IsDoneAfter(a, t1 - t0);
    var q3 := AfterNext(q2, t1, s1).0;
    NextWhenDone(q2, t1, s1);
    assert q3.slots == [Some(a), Some(b.SetStartTime(s1)), None];
    var q4 := AfterAdd(q3, tc, 1, t2).0;
    AddWithRoom(q3, tc, 1, t2);
    assert q4.slots == [Some(NewTempSchedule(tc, 1, t2)), Some(b.SetStartTime(s1)), None];
  }

  /** The `Schedules` object. */
  class Schedules {
    /** `_schedules`: the slot array. */
    var slots: array<Option<TempSchedule>>
    /** `_currentSchedule`: index of the current slot. */
    var current: nat
    /** `_schedulesCount`. */
    var count: byte

    /** The object's state as a `Ring` value. */
    ghost function View(): (q: Ring)
      reads this, slots
    {
      Ring(slots[..], current, count)
    }

    ghost predicate Valid()
      reads this, slots
    {
      slots.Length == SCHEDULES_MAX_COUNT as int && WellFormed(View())
    }

    constructor ()
      ensures Valid() && fresh(slots)
      ensures View() == Initial()
    {
      current := 0;
      count := 0;
      slots := new Option<TempSchedule>[SCHEDULES_MAX_COUNT](_ => None);
      new;
      assert slots[..] == Initial().slots;
    }

    /** `next()`, with its two `millis()` readings passed in: `now` for the
        expiry test and `restamp` for restarting the newly current entry. */
    method Next(now: u32, restamp: u32) returns (advanced: bool)
      requires Valid() && !Faults(View(), now)
      modifies this, slots
      ensures Valid() && slots == old(slots)
      ensures (View(), advanced) == AfterNext(old(View()), now, restamp)
    {
      if count > 0 {
        if slots[current].value.IsDone(now) {
          current := (current + 1) % 3;
          slots[current] := Some(slots[current].value.SetStartTime(restamp));
          HeldUpdate(old(slots[..]), current, slots[current].value);
          return true;
        }
      }
      return false;
    }

    /** `addTempSchedule(temperature, days)`, with `millis()` passed in as
        `now` for the new entry's constructor. */
    method AddTempSchedule(temperature: byte, days: u32, now: u32) returns (added: bool)
      requires Valid()
      modifies this, slots
      ensures Valid() && slots == old(slots)
      ensures (View(), added) == AfterAdd(old(View()), temperature, days, now)
    {
      if count < SCHEDULES_MAX_COUNT {
        var entry := NewTempSchedule(temperature, days, now);
        count := count + 1;
        slots[(current + count - 1) % 3] := Some(entry);
        assert slots[..] == old(slots[..])[AddSlot(old(View())) := Some(entry)];
        HeldUpdate(old(slots[..]), AddSlot(old(View())), entry);
        return true;
      }
      return false;
    }
  }
}
