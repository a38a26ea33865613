/** The booking component for today: slot colouring with a "past" state, and the
    start times offered from the current time onward. */
module TodayBooking {
  import opened Clock
  import opened Seqs
  import opened SlotEngine

  /** The colour a grid entry is drawn in. */
  datatype SlotStatus = Past | Reserved | Available

  /** `isDisplayLast`: the entry reads 23:59. */
  predicate ReadsDisplayLast(t: Instant) {
    Hours(t) == 23 && Minutes(t) == 59
  }

  /** `getStatus` of the today component: a slot whose ten minutes are over is past
      (the display-only 23:59 entry never is), else reserved when its key is taken,
      else available. */
  function TodayStatus(keys: set<Instant>, t: Instant, now: Instant): (st: SlotStatus)
    ensures st == Past <==> !ReadsDisplayLast(t) && t + SlotMs <= now
    ensures st == Reserved <==> !(!ReadsDisplayLast(t) && t + SlotMs <= now) && SlotKey(t) in keys
  {
    var displayLast := ReadsDisplayLast(t);
    var slotEnd := if displayLast then t else t + SlotMs;
    var isPast := slotEnd <= now;
    if !displayLast && isPast then Past
    else if SlotKey(t) in keys then Reserved
    else Available
  }

  /** Time only moves slots towards "past": a past slot stays past, and a slot that is
      not past later was not past earlier. */
  lemma TodayStatusMonotone(keys: set<Instant>, t: Instant, now: Instant, later: Instant)
    requires now <= later
    ensures TodayStatus(keys, t, now) == Past ==> TodayStatus(keys, t, later) == Past
    ensures TodayStatus(keys, t, later) != Past ==> TodayStatus(keys, t, later) == TodayStatus(keys, t, now)
  {
  }

  /** On today's grid the display entry is never past, and a grid start is past
      exactly when its slot has ended, whatever the reservations. */
  lemma TodayGridStatus(keys: set<Instant>, now: Instant, t: Instant)
    requires t in GridStarts(LocalMidnight(now)) + [DisplayLast(LocalMidnight(now))]
    ensures t == DisplayLast(LocalMidnight(now)) ==> TodayStatus(keys, t, now) != Past
    ensures t != DisplayLast(LocalMidnight(now)) ==> (TodayStatus(keys, t, now) == Past <==> t + SlotMs <= now)
  {
    var base := LocalMidnight(now);
    assert LocalMidnight(base) == base;
    DisplayLastShape(base);
  }

  /** The start times the today modal offers: the walker from now rounded up to
      ten minutes, up to 23:50, keeping unreserved slots. */
  function TodayStartCandidates(keys: set<Instant>, now: Instant): seq<Instant> {
    FreeWalk(keys, RoundedUpNow(now), GridEnd(now) + 1)
  }

  /** `renderStartTimeOptions` of the today component. */
  method StartOptions(keys: set<Instant>, now: Instant) returns (options: seq<Instant>)
    ensures options == TodayStartCandidates(keys, now)
  {
    var rounded := RoundedUpNow(now);
    var end := GridEnd(now);
    options := [];
    var walker := rounded;
    while walker <= end
      invariant FreeWalk(keys, rounded, end + 1) == options + FreeWalk(keys, walker, end + 1)
      decreases end - walker
    {
      var k := SlotKey(walker);
      ghost var step := if k !in keys then [walker] else [];
      assert FreeWalk(keys, walker, end + 1) == step + FreeWalk(keys, walker + SlotMs, end + 1);
      ghost var before := options;
      if !(k in keys) {
        options := options + [walker];
      }
      assert options == before + step;
      assert before + (step + FreeWalk(keys, walker + SlotMs, end + 1)) == options + FreeWalk(keys, walker + SlotMs, end + 1);
      walker := walker + SlotMs;
    }
  }

  /** A multiple of ten minutes at or before `now` is at or before the start of
      `now`'s minute. */
  lemma AlignedBeforeFloor(m: Instant, now: Instant)
    requires m % SlotMs == 0 && m <= now
    ensures m <= FloorMinute(now)
  {
    var k := m / SlotMs;
    assert m == 600000 * k;
    var q := now / 60000;
    assert now == 60000 * q + now % 60000;
    assert 600000 * k <= 60000 * q + now % 60000;
    assert 10 * k <= q;
  }

  /** Today's midnight lies on the same ten-minute lattice as the rounded time, and
      not after it. */
  lemma MidnightBeforeRounded(now: Instant)
    ensures LocalMidnight(now) <= RoundedUpNow(now)
    ensures (RoundedUpNow(now) - LocalMidnight(now)) % SlotMs == 0
  {
    var m := LocalMidnight(now);
    var r := RoundedUpNow(now);
    AlignedBeforeFloor(m, now);
    assert r - m == SlotMs * (r / SlotMs - m / SlotMs);
  }

  /** The start options are exactly today's unreserved grid starts from the rounded
      current time on. */
  lemma TodayStartCandidatesSpec(keys: set<Instant>, now: Instant)
    ensures forall x :: x in TodayStartCandidates(keys, now) <==>
      x in GridStarts(LocalMidnight(now)) && RoundedUpNow(now) <= x && x !in keys
  {
    var base := LocalMidnight(now);
    var r := RoundedUpNow(now);
    var E := GridEnd(now) + 1;
    assert LocalMidnight(base) == base;
    assert GridEnd(base) + 1 == E;
    assert GridStarts(base) == Walk(base, E);
    MidnightBeforeRounded(now);
    WalkSuffix(base, r, E);
    WalkMembers(r, E);
    FreeWalkIsFilter(keys, r, E);
    var c := TodayStartCandidates(keys, now);
    assert c == Filter(Walk(r, E), Free(keys));
    forall x
      ensures x in c <==> x in Walk(base, E) && r <= x && x !in keys
    {
      if x in Walk(r, E) {
        AlignedOnWalk(r, E, x);
        assert Free(keys)(x) <==> x !in keys;
      }
    }
  }

  /** The start options come in increasing order. */
  lemma TodayStartCandidatesIncreasing(keys: set<Instant>, now: Instant)
    ensures Increasing(TodayStartCandidates(keys, now))
  {
    var r := RoundedUpNow(now);
    var E := GridEnd(now) + 1;
    WalkSteps(r, E);
    FilterIncreasing(Walk(r, E), Free(keys));
    FreeWalkIsFilter(keys, r, E);
  }
}
