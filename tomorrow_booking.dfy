/** The booking component for tomorrow: the grid of the next local day, a status
    without a "past" state, and the start times offered from that grid. */
module TomorrowBooking {
  import opened Clock
  import opened Seqs
  import opened SlotEngine
  import opened TodayBooking

  /** `tomorrow`: today's date plus one, at 00:00 local time. */
  function TomorrowBase(now: Instant): (b: Instant)
    ensures b == LocalMidnight(now) + DayMs
    ensures DayNumber(b) == DayNumber(now) + 1
    ensures LocalMidnight(b) == b
    ensures now < b
  {
    assert Wall(now + DayMs) == Wall(now) + DayMs;
    assert Wall(now + DayMs) % DayMs == Wall(now) % DayMs;
    LocalMidnight(now + DayMs)
  }

  /** `getStatus` of the tomorrow component: reserved when the slot key is taken,
      otherwise available; nothing is ever past. */
  function TomorrowStatus(keys: set<Instant>, t: Instant): (st: SlotStatus)
    ensures st != Past
    ensures st == Reserved <==> SlotKey(t) in keys
  {
    if SlotKey(t) in keys then Reserved else Available
  }

  /** For an entry whose slot has not ended yet, the tomorrow status is the today
      status: dropping the "past" state loses nothing on a future grid. */
  lemma TomorrowStatusIsTodayStatus(keys: set<Instant>, t: Instant, now: Instant)
    requires now < t
    ensures TodayStatus(keys, t, now) == TomorrowStatus(keys, t)
  {
  }

  /** Every entry of tomorrow's grid lies after `now`, so none of them is past by
      the today rule either. */
  lemma TomorrowGridIsFuture(keys: set<Instant>, now: Instant, t: Instant)
    requires t in GridStarts(TomorrowBase(now)) + [DisplayLast(TomorrowBase(now))]
    ensures now < t
    ensures TodayStatus(keys, t, now) == TomorrowStatus(keys, t)
  {
    var b := TomorrowBase(now);
    WalkMembers(b, GridEnd(b) + 1);
    TomorrowStatusIsTodayStatus(keys, t, now);
  }

  /** `renderStartTimeOptions` of the tomorrow component as written: every entry of
      `timeSlots`, the display-only 23:59 included, whose slot key is free. */
  function AsWrittenStartOptions(keys: set<Instant>, base: Instant): seq<Instant> {
    Filter(GridStarts(base) + [DisplayLast(base)], Free(keys))
  }

  /** The start options as the display-only comment and the today component (whose
      walker stops at 23:50) intend them: the free ten-minute grid starts. */
  function TomorrowStartOptions(keys: set<Instant>, base: Instant): seq<Instant> {
    Filter(GridStarts(base), Free(keys))
  }

  /** The written options are the intended ones plus the 23:59 entry whenever the
      23:50 slot is free. */
  lemma AsWrittenAddsDisplayLast(keys: set<Instant>, base: Instant)
    requires base == LocalMidnight(base)
    ensures AsWrittenStartOptions(keys, base) ==
      TomorrowStartOptions(keys, base) + (if GridEnd(base) !in keys then [DisplayLast(base)] else [])
  {
    FilterConcat(GridStarts(base), [DisplayLast(base)], Free(keys));
    DisplayLastShape(base);
    assert [DisplayLast(base)][..0] == [];
  }

  /** With the 23:50 slot free, the written options offer 23:59 as a start: an
      instant off the ten-minute lattice whose one-hour booking ends at 00:59 of
      the day after. */
  lemma AsWrittenOffersDisplayLast(keys: set<Instant>, base: Instant)
    requires base == LocalMidnight(base)
    requires GridEnd(base) !in keys
    ensures DisplayLast(base) in AsWrittenStartOptions(keys, base)
    ensures DisplayLast(base) % SlotMs != 0
    ensures DayNumber(DisplayLast(base) + 60 * MinuteMs) == DayNumber(base) + 1
  {
    AsWrittenAddsDisplayLast(keys, base);
    DisplayLastShape(base);
    WallFields(DayNumber(base) + 1, 0, 59);
    assert base == DayNumber(base) * DayMs - KstOffsetMs by {
      WallFields(DayNumber(base), 0, 0);
    }
  }

  /** The intended options are exactly the free grid starts of the day, each on the
      ten-minute lattice and on the base's day. */
  lemma TomorrowStartOptionsMembers(keys: set<Instant>, base: Instant)
    requires base == LocalMidnight(base)
    ensures forall x :: x in TomorrowStartOptions(keys, base) <==> x in GridStarts(base) && x !in keys
    ensures forall x :: x in TomorrowStartOptions(keys, base) ==>
      x % SlotMs == 0 && DayNumber(x) == DayNumber(base)
  {
    GridShape(base);
  }

  /** The intended options come in increasing order, and they are what the today
      walker yields when started at midnight. */
  lemma TomorrowStartOptionsOrder(keys: set<Instant>, base: Instant)
    ensures Increasing(TomorrowStartOptions(keys, base))
    ensures TomorrowStartOptions(keys, base) == FreeWalk(keys, base, GridEnd(base) + 1)
  {
    WalkSteps(base, GridEnd(base) + 1);
    FilterIncreasing(GridStarts(base), Free(keys));
    FreeWalkIsFilter(keys, base, GridEnd(base) + 1);
  }
}
