/** The slot engine shared, line for line, by the today and the tomorrow booking
    components: the reserved-key set of a room, the end-exclusive conflict walk, the
    day grid and the end-time candidates. */
module SlotEngine {
  import opened Wrappers
  import opened Clock
  import opened Seqs
  import opened Reservations
  import opened ReservationStore

  /** The slot keys of a list of visited instants. */
  function KeysOf(xs: seq<Instant>): set<Instant> {
    set x | x in xs :: SlotKey(x)
  }

  /** `reserved10mKeys`: the slot key of every instant the index holds for the room. */
  method ReservedKeys(index: Index, room: int) returns (keys: set<Instant>)
    ensures keys == KeysOf(Lookup(index, room))
  {
    var slots := Lookup(index, room);
    keys := {};
    for i := 0 to |slots|
      invariant keys == KeysOf(slots[..i])
    {
      assert slots[..i + 1] == slots[..i] + [slots[i]];
      keys := keys + {SlotKey(slots[i])};
    }
    assert slots[..|slots|] == slots;
  }

  /** A key is reserved iff some contributing reservation of the room visits an
      instant of that slot. */
  lemma ReservedKeysMembers(rs: seq<Reservation>, room: int, k: Instant)
    ensures k in KeysOf(Lookup(BuildIndex(rs), room))
        <==> exists i, x :: 0 <= i < |rs| && Covers(rs[i], room, x) && SlotKey(x) == k
  {
    forall x ensures x in Lookup(BuildIndex(rs), room) <==> exists i :: 0 <= i < |rs| && Covers(rs[i], room, x) {
      IndexMembers(rs, room, x);
    }
  }

  /** The test `!reserved10mKeys.has(slotKey10m(x))`. */
  function Free(keys: set<Instant>): Instant -> bool {
    x => SlotKey(x) !in keys
  }

  /** The walker steps from `s` before `e` whose slot is free, in walking order. */
  function FreeWalk(keys: set<Instant>, s: Instant, e: Instant): seq<Instant>
    decreases e - s
  {
    if s < e then (if SlotKey(s) !in keys then [s] else []) + FreeWalk(keys, s + SlotMs, e)
    else []
  }

  /** Collecting free steps while walking is filtering the walk by `Free`. */
  lemma {:induction false} FreeWalkIsFilter(keys: set<Instant>, s: Instant, e: Instant)
    ensures FreeWalk(keys, s, e) == Filter(Walk(s, e), Free(keys))
    decreases e - s
  {
    if s < e {
      FreeWalkIsFilter(keys, s + SlotMs, e);
      FilterCons(s, Walk(s + SlotMs, e), Free(keys));
    }
  }

  /** No walker step from `s` before `e` falls in a reserved slot. */
  predicate RangeFree(keys: set<Instant>, s: Instant, e: Instant) {
    forall x :: x in Walk(s, e) ==> SlotKey(x) !in keys
  }

  /** `isRangeAvailable`: walk from the start in ten-minute steps while before the end,
      and fail on the first step whose slot is reserved. */
  method IsRangeAvailable(keys: set<Instant>, s: Instant, e: Instant) returns (ok: bool)
    ensures ok == RangeFree(keys, s, e)
  {
    var walker := s;
    while walker < e
      invariant RangeFree(keys, s, e) == RangeFree(keys, walker, e)
      decreases e - walker
    {
      RangeFreeStep(keys, walker, e);
      if SlotKey(walker) in keys {
        return false;
      }
      walker := walker + SlotMs;
    }
    assert Walk(walker, e) == [];
    return true;
  }

  /** A range with a first step is free when that step's slot is and the rest is. */
  lemma RangeFreeStep(keys: set<Instant>, s: Instant, e: Instant)
    requires s < e
    ensures RangeFree(keys, s, e) <==> SlotKey(s) !in keys && RangeFree(keys, s + SlotMs, e)
  {
    assert Walk(s, e) == [s] + Walk(s + SlotMs, e);
    assert s in Walk(s, e);
  }

  /** The end is exclusive: a range that ends where the next one starts never sees the
      next one's slots. Two back-to-back hours are free together exactly when each is. */
  lemma RangeFreeSplit(keys: set<Instant>, s: Instant, m: Instant, e: Instant)
    requires s <= m <= e && (m - s) % SlotMs == 0
    ensures RangeFree(keys, s, e) <==> RangeFree(keys, s, m) && RangeFree(keys, m, e)
  {
    WalkSplit(s, m, e);
  }

  /** Two half-open intervals share an instant. */
  predicate Overlaps(a: Instant, b: Instant, c: Instant, d: Instant) {
    (if a < c then c else a) < (if b < d then b else d)
  }

  /** Every contributing reservation of `room` starts on a slot boundary. */
  ghost predicate AlignedRoom(rs: seq<Reservation>, room: int) {
    forall i :: 0 <= i < |rs| && Span(rs[i]).Some? && rs[i].roomId == room ==>
      Span(rs[i]).value.0 % SlotMs == 0
  }

  lemma AlignedOnWalk(s: Instant, e: Instant, x: Instant)
    requires s % SlotMs == 0 && OnWalk(s, e, x)
    ensures SlotKey(x) == x
  {
    SlotKeyUnique(x, x);
  }

  /** A reserved key inside an aligned range comes from a reservation overlapping it. */
  lemma ConflictHasOverlap(rs: seq<Reservation>, room: int, s: Instant, e: Instant)
    requires s % SlotMs == 0
    requires AlignedRoom(rs, room)
    requires !RangeFree(KeysOf(Lookup(BuildIndex(rs), room)), s, e)
    ensures exists i :: (0 <= i < |rs| && Span(rs[i]).Some? && rs[i].roomId == room
      && Overlaps(Span(rs[i]).value.0, Span(rs[i]).value.1, s, e))
  {
    var keys := KeysOf(Lookup(BuildIndex(rs), room));
    var x :| x in Walk(s, e) && SlotKey(x) in keys;
    var y :| y in Lookup(BuildIndex(rs), room) && SlotKey(y) == SlotKey(x);
    IndexMembers(rs, room, y);
    var i :| 0 <= i < |rs| && Covers(rs[i], room, y);
    var (a, b) := Span(rs[i]).value;
    WalkMembers(s, e);
    AlignedOnWalk(s, e, x);
    AlignedOnWalk(a, b, y);
    assert x == y;
    assert Overlaps(a, b, s, e);
  }

  /** The later of two aligned starts lies on both walks when the intervals overlap. */
  lemma OverlapMeet(a: Instant, b: Instant, s: Instant, e: Instant)
    requires a % SlotMs == 0 && s % SlotMs == 0 && Overlaps(a, b, s, e)
    ensures OnWalk(a, b, if a < s then s else a) && OnWalk(s, e, if a < s then s else a)
    ensures SlotKey(if a < s then s else a) == (if a < s then s else a)
  {
    var m := if a < s then s else a;
    assert m - a == SlotMs * (m / SlotMs - a / SlotMs);
    assert m - s == SlotMs * (m / SlotMs - s / SlotMs);
    SlotKeyUnique(m, m);
  }

  /** A reservation overlapping an aligned range puts a reserved key inside it. */
  lemma OverlapHasConflict(rs: seq<Reservation>, room: int, s: Instant, e: Instant, i: int)
    requires s % SlotMs == 0
    requires AlignedRoom(rs, room)
    requires 0 <= i < |rs| && Span(rs[i]).Some? && rs[i].roomId == room
    requires Overlaps(Span(rs[i]).value.0, Span(rs[i]).value.1, s, e)
    ensures !RangeFree(KeysOf(Lookup(BuildIndex(rs), room)), s, e)
  {
    var a := Span(rs[i]).value.0;
    var b := Span(rs[i]).value.1;
    var m := if a < s then s else a;
    OverlapMeet(a, b, s, e);
    assert Covers(rs[i], room, m);
    IndexMembers(rs, room, m);
    WalkMembers(s, e);
    assert m in Walk(s, e) && SlotKey(m) in KeysOf(Lookup(BuildIndex(rs), room));
  }

  /** The conflict check against a rebuilt index, for slot-aligned bookings: a range
      `[s, e)` is free iff it overlaps no RESERVED reservation of the room. */
  lemma RangeFreeIffNoOverlap(rs: seq<Reservation>, room: int, s: Instant, e: Instant)
    requires s % SlotMs == 0
    requires AlignedRoom(rs, room)
    ensures RangeFree(KeysOf(Lookup(BuildIndex(rs), room)), s, e)
        <==> forall i :: 0 <= i < |rs| && Span(rs[i]).Some? && rs[i].roomId == room ==>
               !Overlaps(Span(rs[i]).value.0, Span(rs[i]).value.1, s, e)
  {
    if !RangeFree(KeysOf(Lookup(BuildIndex(rs), room)), s, e) {
      ConflictHasOverlap(rs, room, s, e);
    }
    forall i | 0 <= i < |rs| && Span(rs[i]).Some? && rs[i].roomId == room
                && Overlaps(Span(rs[i]).value.0, Span(rs[i]).value.1, s, e)
      ensures !RangeFree(KeysOf(Lookup(BuildIndex(rs), room)), s, e)
    {
      OverlapHasConflict(rs, room, s, e, i);
    }
  }

  /** The last bookable grid start: 23:50 of the base's day. */
  function GridEnd(base: Instant): Instant {
    LocalMidnight(base) + 23 * HourMs + 50 * MinuteMs
  }

  /** The display-only entry: 23:59 of the base's day. */
  function DisplayLast(base: Instant): Instant {
    LocalMidnight(base) + 23 * HourMs + 59 * MinuteMs
  }

  /** The grid starts: the walker from `base` while `walker <= 23:50`. */
  function GridStarts(base: Instant): seq<Instant> {
    Walk(base, GridEnd(base) + 1)
  }

  /** `timeSlots`: the ten-minute grid starts followed by the display-only 23:59. */
  method TimeSlots(base: Instant) returns (slots: seq<Instant>)
    ensures slots == GridStarts(base) + [DisplayLast(base)]
  {
    slots := [];
    var end := GridEnd(base);
    var walker := base;
    while walker <= end
      invariant slots + Walk(walker, end + 1) == GridStarts(base)
      decreases end - walker
    {
      slots := slots + [walker];
      walker := walker + SlotMs;
    }
    slots := slots + [DisplayLast(base)];
  }

  /** From local midnight the grid holds exactly 144 starts, ten minutes apart from
      00:00 to 23:50, all of them slot keys of themselves. */
  lemma GridShape(base: Instant)
    requires base == LocalMidnight(base)
    ensures |GridStarts(base)| == 144
    ensures forall i :: 0 <= i < 144 ==> GridStarts(base)[i] == base + i * SlotMs
    ensures GridStarts(base)[143] == GridEnd(base)
    ensures forall x :: x in GridStarts(base) ==> SlotKey(x) == x && DayNumber(x) == DayNumber(base)
  {
    WalkLength(base, GridEnd(base) + 1);
    WalkSteps(base, GridEnd(base) + 1);
    WalkMembers(base, GridEnd(base) + 1);
    forall x | x in GridStarts(base) ensures SlotKey(x) == x && DayNumber(x) == DayNumber(base) {
      AlignedOnWalk(base, GridEnd(base) + 1, x);
      assert LocalMidnight(x) == base by {
        assert base <= x < base + DayMs;
        assert Wall(x) / DayMs == Wall(base) / DayMs;
      }
    }
  }

  /** The display entry reads 23:59, shares the 23:50 slot key, and is the only
      entry that reads 23:59: no grid start does. */
  lemma DisplayLastShape(base: Instant)
    requires base == LocalMidnight(base)
    ensures Hours(DisplayLast(base)) == 23 && Minutes(DisplayLast(base)) == 59
    ensures SlotKey(DisplayLast(base)) == GridEnd(base)
    ensures DisplayLast(base) % SlotMs != 0
    ensures forall x :: x in GridStarts(base) ==> Minutes(x) != 59
  {
    WallFields(DayNumber(base), 23, 59);
    assert DisplayLast(base) == DayNumber(base) * DayMs + 23 * HourMs + 59 * MinuteMs - KstOffsetMs;
    SlotKeyUnique(DisplayLast(base), GridEnd(base));
    GridShape(base);
    forall x | x in GridStarts(base) ensures Minutes(x) != 59 {
      MinuteDigit(x);
      assert x == SlotMs * (x / SlotMs);
      assert x / MinuteMs == 10 * (x / SlotMs);
    }
  }

  /** `renderEndTimeOptions`: nothing before a start is chosen; otherwise start + 60 min
      and start + 120 min, each kept iff the range up to it is free. */
  function EndOptions(keys: set<Instant>, start: Option<Instant>): (ends: seq<Instant>)
    ensures start.None? ==> ends == []
    ensures start.Some? ==> |ends| <= 2 && forall x :: x in ends <==>
      (x == start.value + 60 * MinuteMs || x == start.value + 120 * MinuteMs) && RangeFree(keys, start.value, x)
  {
    match start
    case None => []
    case Some(s) =>
      Filter([s + 60 * MinuteMs, s + 120 * MinuteMs], (x: Instant) => RangeFree(keys, s, x))
  }

  /** A free two-hour range is a free one-hour range extended: whenever start + 120 min
      is offered, start + 60 min is offered too. */
  lemma EndOptionsNested(keys: set<Instant>, s: Instant)
    ensures s + 120 * MinuteMs in EndOptions(keys, Some(s)) ==> s + 60 * MinuteMs in EndOptions(keys, Some(s))
  {
    RangeFreeSplit(keys, s, s + 60 * MinuteMs, s + 120 * MinuteMs);
  }
}
