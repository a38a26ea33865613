/** The reservation record the server sends to the client, and the ways the client
    turns its raw date fields into instants. */
module Reservations {
  import opened Wrappers
  import opened Clock

  /** A raw date field as it arrives in JSON: missing (`null`/`undefined`), an array
      of numbers `[year, month, day, hour, minute, second, nano]` (a serialized
      local date-time), or a string. A string carries the instant `new Date(s)`
      yields for it, `None` for an unparseable one; date-string parsing itself is
      not part of this model. */
  datatype RawTime =
    | Absent
    | Parts(parts: seq<int>)
    | Text(text: string, parsed: Option<Instant>)

  /** JavaScript truthiness of a field: arrays are always truthy, strings unless empty. */
  predicate Truthy(raw: RawTime) {
    match raw
    case Absent => false
    case Parts(_) => true
    case Text(s, _) => s != ""
  }

  /** `a || b` on two raw fields. */
  function Or(a: RawTime, b: RawTime): (r: RawTime)
    ensures Truthy(a) ==> r == a
    ensures !Truthy(a) ==> r == b
  {
    if Truthy(a) then a else b
  }

  /** `a ?? b` on two raw fields: only a missing value falls through. */
  function Coalesce(a: RawTime, b: RawTime): (r: RawTime)
    ensures a != Absent ==> r == a
    ensures a == Absent ==> r == b
  {
    if a.Absent? then b else a
  }

  /** What a date helper returns: `null`, an Invalid Date, or a valid Date. */
  datatype ParsedTime = Null | Invalid | At(instant: Instant)

  /** The number a parsed date turns into under `-`, `>` or `getTime`: `null` is 0,
      an Invalid Date is `NaN` (`None`). */
  function NumberValue(p: ParsedTime): (v: Option<int>)
    ensures v == None <==> p == Invalid
    ensures p.At? ==> v == Some(p.instant)
  {
    match p
    case Null => Some(0)
    case Invalid => None
    case At(t) => Some(t)
  }

  /** `x > now` for a parsed date: false for `NaN`, and `null` compares as 0. */
  predicate After(p: ParsedTime, now: Instant) {
    NumberValue(p).Some? && NumberValue(p).value > now
  }

  /** The sort key of a parsed date. A comparator that yields `NaN` leaves the order
      to the engine; this model counts an Invalid Date as 0. */
  function SortValue(p: ParsedTime): int {
    match NumberValue(p)
    case Some(v) => v
    case None => 0
  }

  /** `const [y, m, d, h = 0, min = 0] = raw; new Date(y, m - 1, d, h, min)`:
      the month is 1-based, a missing hour or minute is 0, and a missing year, month
      or day makes the date invalid. */
  function PartsToDate(p: seq<int>): (r: ParsedTime)
    ensures |p| < 3 <==> r == Invalid
  {
    if |p| < 3 then Invalid
    else
      At(MakeLocal(p[0], p[1] - 1, p[2], if |p| > 3 then p[3] else 0, if |p| > 4 then p[4] else 0, 0, 0))
  }

  /** `parseToDate` of the reservation store (the same function as `toDate` of the
      reservation history row and `parseDate` of the banner): `null` for a falsy
      value, the array form through `PartsToDate`, a string through `new Date`. */
  function ParseToDate(raw: RawTime): (r: ParsedTime)
    ensures !Truthy(raw) <==> r == Null
    ensures raw.Parts? ==> r == PartsToDate(raw.parts)
  {
    match raw
    case Absent => Null
    case Parts(p) => PartsToDate(p)
    case Text(s, v) =>
      if s == "" then Null
      else match v
        case None => Invalid
        case Some(t) => At(t)
  }

  /** An array date of a reservation reads back as the local date and time it names. */
  lemma ParseToDateFields(y: int, m: int, d: int, h: int, mi: int)
    requires 1 <= m <= 12 && 0 <= h < 24 && 0 <= mi < 60
    ensures ParseToDate(Parts([y, m, d, h, mi])).At?
    ensures DayNumber(ParseToDate(Parts([y, m, d, h, mi])).instant)
            == DaysFromCivil(FullYear(y), m, 1) + d - 1
    ensures Hours(ParseToDate(Parts([y, m, d, h, mi])).instant) == h
    ensures Minutes(ParseToDate(Parts([y, m, d, h, mi])).instant) == mi
  {
    MakeLocalFields(y, m - 1, d, h, mi);
  }

  /** A missing hour and minute mean midnight. */
  lemma ParseToDateMidnight(y: int, m: int, d: int)
    ensures ParseToDate(Parts([y, m, d])) == ParseToDate(Parts([y, m, d, 0, 0]))
  {
    var t := MakeLocal(y, m - 1, d, 0, 0, 0, 0);
    assert PartsToDate([y, m, d]) == At(t);
    assert PartsToDate([y, m, d, 0, 0]) == At(t);
  }

  /** A reservation as the client receives it. `startTime`/`endTime` may be absent,
      in which case consumers fall back to `reservationStartTime`/`reservationEndTime`. */
  datatype Reservation = Reservation(
    id: Option<int>,
    roomId: int,
    status: Option<string>,
    startTime: RawTime,
    endTime: RawTime,
    reservationStartTime: RawTime,
    reservationEndTime: RawTime,
    createdAt: RawTime,
    canceledAt: RawTime,
    cancelledAt: RawTime)

  /** `r.status === 'RESERVED'`. */
  predicate IsReserved(r: Reservation) {
    r.status == Some("RESERVED")
  }

  /** `r.startTime || r.reservationStartTime`. */
  function StartRaw(r: Reservation): RawTime {
    Or(r.startTime, r.reservationStartTime)
  }

  /** `r.endTime || r.reservationEndTime`. */
  function EndRaw(r: Reservation): RawTime {
    Or(r.endTime, r.reservationEndTime)
  }
}
