/** One row of the user's reservation history: its clock times and whether the
    owner may still cancel it. */
module ReservationHistory {
  import opened Text
  import opened Clock
  import opened Reservations
  import opened ReservationStore

  /** The row's end: `toDate(reservation.endTime || reservation.reservationEndTime)`. */
  function RowEnd(r: Reservation): ParsedTime {
    ParseToDate(EndRaw(r))
  }

  /** `canCancel`: the end is a valid date strictly after `now`. A missing end is
      `null` and an Invalid Date compares false. */
  predicate CanCancel(r: Reservation, now: Instant) {
    RowEnd(r).At? && RowEnd(r).instant > now
  }

  /** A booking that ends exactly now, or earlier, can no longer be cancelled; one
      that ends a millisecond later still can. */
  lemma CancelGateIsStrict(r: Reservation, now: Instant)
    requires RowEnd(r).At?
    ensures CanCancel(r, now) <==> now < RowEnd(r).instant
    ensures !CanCancel(r, RowEnd(r).instant) && CanCancel(r, RowEnd(r).instant - 1)
  {
  }

  /** The end falls back to `reservationEndTime` only when `endTime` is falsy. */
  lemma RowEndFallback(r: Reservation)
    ensures Truthy(r.endTime) ==> RowEnd(r) == ParseToDate(r.endTime)
    ensures !Truthy(r.endTime) ==> RowEnd(r) == ParseToDate(r.reservationEndTime)
  {
  }

  /** Every reservation the store lists as upcoming (at a non-negative `now`) shows
      a cancel gate that is open. */
  lemma UpcomingIsCancellable(r: Reservation, now: Instant)
    requires now >= 0
    requires IsUpcoming(r, now)
    ensures CanCancel(r, now)
  {
    assert ParseToDate(r.endTime).At?;
    assert Truthy(r.endTime);
  }

  /** The cancel button is rendered iff the gate is open and a handler is given;
      clicking it hands the row's reservation to that handler as is. */
  predicate ShowCancelButton(r: Reservation, now: Instant, hasOnCancel: bool) {
    CanCancel(r, now) && hasOnCancel
  }

  /** `formatTime`: zero-padded `HH:MM` of a valid date, `--:--` for `null`. An
      Invalid Date is an object, hence truthy, and prints as `NaN:NaN`. */
  function FormatTime(p: ParsedTime): (s: string)
    ensures s == "--:--" <==> p.Null?
    ensures p.At? ==> |s| == 5 && s[2] == ':'
    ensures p.At? ==> AllDigits(s[..2]) && ParseNat(s[..2]) == Hours(p.instant)
    ensures p.At? ==> AllDigits(s[3..]) && ParseNat(s[3..]) == Minutes(p.instant)
  {
    match p
    case Null => "--:--"
    case Invalid => "NaN:NaN"
    case At(t) =>
      FormatHMParses(t);
      assert FormatHM(t)[0] in FormatHM(t)[..2];
      FormatHM(t)
  }
}
