/** The booking modal's form state, shared line for line by the today and the
    tomorrow booking components: the start and end selections, the remembered
    duration, and the submit guards. */
module BookingForm {
  import opened Wrappers
  import opened Clock
  import opened SlotEngine
  import opened Reservations
  import opened ReservationStore

  /** The only durations a booking may have, in minutes. */
  predicate AllowedDuration(d: int) {
    d == 60 || d == 120
  }

  /** The range from `s` to `e` is one or two hours long. */
  predicate OneOrTwoHours(s: Instant, e: Instant) {
    e - s == 60 * MinuteMs || e - s == 120 * MinuteMs
  }

  /** `(end - start) / (1000 * 60)` when that quotient is a whole number of
      minutes; a fractional quotient is None, and it equals neither 60 nor 120. */
  function MinutesBetween(s: Instant, e: Instant): (m: Option<int>)
    ensures m.Some? <==> (e - s) % MinuteMs == 0
    ensures m.Some? ==> e - s == m.value * MinuteMs
  {
    if (e - s) % MinuteMs == 0 then Some((e - s) / MinuteMs) else None
  }

  /** The length `tryAuto` is called with: the remembered duration when it is
      truthy (present and non-zero), else 60 minutes. */
  function AutoLength(durationMinutes: Option<int>): (len: int)
    ensures durationMinutes.Some? && durationMinutes.value != 0 ==> len == durationMinutes.value
    ensures durationMinutes.None? ==> len == 60
  {
    if durationMinutes.Some? && durationMinutes.value != 0 then durationMinutes.value else 60
  }

  /** `durationMinutes ?? (end - start) / (1000 * 60)`: the stored duration wins
      over the selected range. */
  function SubmittedDuration(durationMinutes: Option<int>, s: Instant, e: Instant): Option<int> {
    if durationMinutes.Some? then durationMinutes else MinutesBetween(s, e)
  }

  /** The guard `duration === 60 || duration === 120` passes. */
  predicate Accepted(d: Option<int>) {
    d.Some? && AllowedDuration(d.value)
  }

  /** What a submit ends in. `Booked` carries the range that was posted. */
  datatype SubmitOutcome = MissingTimes | BadDuration | Rejected | Booked(start: Instant, end: Instant)

  /** The submit decision: both times must be chosen, then the duration must be 60
      or 120 minutes, and only then is the request made, which may fail. */
  function Decide(startTime: Option<Instant>, endTime: Option<Instant>, durationMinutes: Option<int>,
                  postOk: bool): (o: SubmitOutcome)
    ensures o == MissingTimes <==> startTime.None? || endTime.None?
    ensures o == BadDuration <==> (startTime.Some? && endTime.Some? &&
      !Accepted(SubmittedDuration(durationMinutes, startTime.value, endTime.value)))
    ensures o.Booked? <==> o != MissingTimes && o != BadDuration && postOk
    ensures o.Booked? ==> Some(o.start) == startTime && Some(o.end) == endTime
  {
    if startTime.None? || endTime.None? then MissingTimes
    else
      var d := SubmittedDuration(durationMinutes, startTime.value, endTime.value);
      if !Accepted(d) then BadDuration
      else if postOk then Booked(startTime.value, endTime.value)
      else Rejected
  }

  /** Without a stored duration, a posted range is exactly one or two hours long. */
  lemma BookedRangeWithoutStoredDuration(s: Option<Instant>, e: Option<Instant>, postOk: bool)
    requires Decide(s, e, None, postOk).Booked?
    ensures OneOrTwoHours(s.value, e.value)
  {
  }

  /** The stored duration is trusted as is: with an allowed duration remembered,
      a range of any length passes the duration guard, while without one a range
      that is not one or two hours long is refused. */
  lemma StoredDurationWins(s: Instant, e: Instant, d: int, postOk: bool)
    requires AllowedDuration(d)
    ensures Decide(Some(s), Some(e), Some(d), postOk) == if postOk then Booked(s, e) else Rejected
    ensures !OneOrTwoHours(s, e) ==> Decide(Some(s), Some(e), None, postOk) == BadDuration
  {
    if !OneOrTwoHours(s, e) && MinutesBetween(s, e).Some? {
      assert e - s == MinutesBetween(s, e).value * MinuteMs;
    }
  }

  /** An instance: a remembered hour lets a 30-minute range through. */
  lemma StoredDurationExample(s: Instant)
    ensures Decide(Some(s), Some(s + 30 * MinuteMs), Some(60), true) == Booked(s, s + 30 * MinuteMs)
    ensures Decide(Some(s), Some(s + 30 * MinuteMs), None, true) == BadDuration
  {
    StoredDurationWins(s, s + 30 * MinuteMs, 60, true);
  }

  class Form {
    var open: bool
    var showLoginModal: bool
    var startTime: Option<Instant>
    var endTime: Option<Instant>
    var durationMinutes: Option<int>

    /** The remembered duration is unset or one of the allowed lengths. */
    predicate Valid()
      reads this
    {
      durationMinutes.None? || AllowedDuration(durationMinutes.value)
    }

    /** A chosen end is the chosen start plus the remembered duration. */
    predicate Consistent()
      reads this
    {
      endTime.Some? ==>
        startTime.Some? && durationMinutes.Some? &&
        endTime.value - startTime.value == durationMinutes.value * MinuteMs
    }

    /** The initial state: closed, nothing chosen. */
    constructor()
      ensures !open && !showLoginModal
      ensures startTime == None && endTime == None && durationMinutes == None
      ensures Valid() && Consistent()
    {
      open := false;
      showLoginModal := false;
      startTime := None;
      endTime := None;
      durationMinutes := None;
    }

    /** `handleOpenModal`: without an access token the login prompt opens instead. */
    method OpenModal(signedIn: bool)
      modifies this
      ensures signedIn ==> open && showLoginModal == old(showLoginModal)
      ensures !signedIn ==> showLoginModal && open == old(open)
      ensures startTime == old(startTime) && endTime == old(endTime) && durationMinutes == old(durationMinutes)
    {
      if !signedIn {
        showLoginModal := true;
        return;
      }
      open := true;
    }

    /** The start select's `onChange`: record the start, then `tryAuto` with the
        remembered duration (default 60). A free range sets the end and remembers
        the length; a conflict clears the end and keeps the old duration. */
    method OnStartChange(keys: set<Instant>, newStart: Instant)
      modifies this
      ensures startTime == Some(newStart)
      ensures var len := AutoLength(old(durationMinutes));
        if RangeFree(keys, newStart, newStart + len * MinuteMs)
        then endTime == Some(newStart + len * MinuteMs) && durationMinutes == Some(len)
        else endTime == None && durationMinutes == old(durationMinutes)
      ensures open == old(open) && showLoginModal == old(showLoginModal)
      ensures old(Valid()) ==> Valid()
      ensures Consistent()
    {
      startTime := Some(newStart);
      var len := AutoLength(durationMinutes);
      var candidateEnd := newStart + len * MinuteMs;
      var ok := IsRangeAvailable(keys, newStart, candidateEnd);
      if ok {
        endTime := Some(candidateEnd);
        durationMinutes := Some(len);
      } else {
        endTime := None;
      }
    }

    /** The end select's `onChange`: record the end, and remember the duration only
        when a start is chosen and the range is exactly 60 or 120 minutes. */
    method OnEndChange(selectedEnd: Instant)
      modifies this
      ensures endTime == Some(selectedEnd)
      ensures var m := if old(startTime).Some? then MinutesBetween(old(startTime).value, selectedEnd) else None;
        if Accepted(m) then durationMinutes == m
        else durationMinutes == old(durationMinutes)
      ensures startTime == old(startTime) && open == old(open) && showLoginModal == old(showLoginModal)
      ensures old(Valid()) ==> Valid()
      ensures startTime.Some? && OneOrTwoHours(startTime.value, selectedEnd) ==> Consistent()
    {
      endTime := Some(selectedEnd);
      if startTime.Some? {
        var dur := MinutesBetween(startTime.value, selectedEnd);
        if Accepted(dur) {
          durationMinutes := dur;
        }
      }
    }

    /** `handleSubmitReservation`. The request's outcome and the three refetches'
        responses are parameters, and so is the engine's reading of an array
        `createdAt`. Only a successful booking changes anything: the
        store refetches the latest reservation, the user's list and the index, and
        the form closes and clears. */
    method Submit(store: Store, signedIn: bool, postOk: bool, now: Instant,
                  latest: Fetch<seq<Reservation>>, mine: Fetch<seq<Reservation>>,
                  all: Fetch<seq<Reservation>>, joined: JoinedParse) returns (outcome: SubmitOutcome)
      modifies this, store
      ensures outcome == Decide(old(startTime), old(endTime), old(durationMinutes), postOk)
      ensures !outcome.Booked? ==>
        open == old(open) && startTime == old(startTime) && endTime == old(endTime) &&
        durationMinutes == old(durationMinutes) &&
        store.latestReservation == old(store.latestReservation) &&
        store.userReservations == old(store.userReservations) &&
        store.reservedTimeSlotsByRoom == old(store.reservedTimeSlotsByRoom)
      ensures outcome.Booked? ==>
        !open && startTime == None && endTime == None && durationMinutes == None &&
        store.latestReservation ==
          (if signedIn then (if latest.Fetched? then Latest(latest.body, joined) else None)
           else old(store.latestReservation)) &&
        store.userReservations ==
          (if signedIn then (if mine.Fetched? then Upcoming(mine.body, now) else [])
           else old(store.userReservations)) &&
        store.reservedTimeSlotsByRoom == (if all.Fetched? then BuildIndex(all.body) else map[])
      ensures showLoginModal == old(showLoginModal)
      ensures old(Valid()) && old(Consistent()) ==> Valid() && Consistent()
    {
      outcome := Decide(startTime, endTime, durationMinutes, postOk);
      if !outcome.Booked? {
        return;
      }
      store.RefetchAfterBooking(signedIn, now, latest, mine, all, joined);
      open := false;
      startTime := None;
      endTime := None;
      durationMinutes := None;
    }
  }

  /** In a consistent form whatever is posted is one or two hours long, whether
      the duration guard read the stored duration or the range. */
  lemma BookedRangeIsAllowed(s: Option<Instant>, e: Option<Instant>, d: Option<int>, postOk: bool)
    requires d.None? || AllowedDuration(d.value)
    requires e.Some? ==> s.Some? && d.Some? && e.value - s.value == d.value * MinuteMs
    requires Decide(s, e, d, postOk).Booked?
    ensures OneOrTwoHours(s.value, e.value)
  {
  }
}
