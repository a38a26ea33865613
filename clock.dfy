/** Time as the client sees it. An instant is a JavaScript time value: integer
    milliseconds since 1970-01-01T00:00Z. The browser is taken to run in Korea
    Standard Time, UTC+9 all year (Korea has no daylight saving time), so the local
    wall clock is the instant plus nine hours and every `Date` getter and setter
    becomes integer arithmetic. Dafny's `/` and `%` are Euclidean, which for the
    positive divisors used here is the floor division of these conversions. */
module Clock {
  import opened Text

  const SecondMs: int := 1000
  /** 60 seconds. */
  const MinuteMs: int := 60_000
  /** 60 minutes. */
  const HourMs: int := 3_600_000
  /** 24 hours. */
  const DayMs: int := 86_400_000
  /** The width of one reservation slot: ten minutes. */
  const SlotMs: int := 600_000
  /** Korea Standard Time is nine hours ahead of UTC. */
  const KstOffsetMs: int := 32_400_000

  /** The constants are the products their names say. */
  lemma UnitsAgree()
    ensures MinuteMs == 60 * SecondMs && HourMs == 60 * MinuteMs && DayMs == 24 * HourMs
    ensures SlotMs == 10 * MinuteMs && KstOffsetMs == 9 * HourMs
  {
  }

  /** Milliseconds since the epoch. */
  type Instant = int

  /** Local wall-clock milliseconds since local 1970-01-01 00:00. */
  function Wall(t: Instant): int {
    t + KstOffsetMs
  }

  /** One local calendar day, counted in days since 1970-01-01: the identity of
      `toLocaleDateString` for the instant. */
  function DayNumber(t: Instant): int {
    Wall(t) / DayMs
  }

  /** `getHours()`. */
  function Hours(t: Instant): (h: int)
    ensures 0 <= h < 24
  {
    (Wall(t) / HourMs) % 24
  }

  /** `getMinutes()`. */
  function Minutes(t: Instant): (m: int)
    ensures 0 <= m < 60
  {
    (Wall(t) / MinuteMs) % 60
  }

  /** `setSeconds(0, 0)`: the start of the instant's minute. */
  function FloorMinute(t: Instant): (r: Instant)
    ensures r % MinuteMs == 0 && r <= t < r + MinuteMs
  {
    t - t % MinuteMs
  }

  /** The getters of the instant whose local clock reads `day` days, `h` hours and
      `mi` minutes after local 1970-01-01 00:00. */
  lemma WallFields(day: int, h: int, mi: int)
    requires 0 <= h < 24 && 0 <= mi < 60
    ensures DayNumber(day * DayMs + h * HourMs + mi * MinuteMs - KstOffsetMs) == day
    ensures Hours(day * DayMs + h * HourMs + mi * MinuteMs - KstOffsetMs) == h
    ensures Minutes(day * DayMs + h * HourMs + mi * MinuteMs - KstOffsetMs) == mi
  {
    var w := day * DayMs + h * HourMs + mi * MinuteMs;
    var inDay := h * 3_600_000 + mi * 60_000;
    assert 0 <= inDay < 86_400_000;
    assert w == 86_400_000 * day + inDay;
    assert w == 3_600_000 * (24 * day + h) + 60_000 * mi;
    assert w == 60_000 * (1440 * day + 60 * h + mi);
    assert (24 * day + h) % 24 == h;
    assert (1440 * day + 60 * h + mi) % 60 == mi;
  }

  /** `new Date(t); setHours(0, 0, 0, 0)`: local midnight of the instant's day. */
  function LocalMidnight(t: Instant): (r: Instant)
    ensures r <= t < r + DayMs
    ensures DayNumber(r) == DayNumber(t)
    ensures Hours(r) == 0 && Minutes(r) == 0
    ensures r % SlotMs == 0
  {
    var n := DayNumber(t);
    WallFields(n, 0, 0);
    assert Wall(t) == n * DayMs + Wall(t) % DayMs;
    assert n * DayMs - KstOffsetMs == SlotMs * (144 * n - 54);
    t - Wall(t) % DayMs
  }

  /** The minute digit the slot code inspects agrees with the UTC minute, because
      the offset is a whole number of ten-minute blocks. */
  lemma MinuteDigit(t: Instant)
    ensures Minutes(t) % 10 == (t / MinuteMs) % 10
  {
    var q := t / MinuteMs;
    OffsetMinutes(t);
    TensOfSixty(q + 540);
    assert (q + 540) % 10 == q % 10 by {
      assert q + 540 == 10 * (q / 10 + 54) + q % 10;
    }
  }

  /** The local minute count is the UTC one plus the 540 minutes of the offset. */
  lemma OffsetMinutes(t: Instant)
    ensures Wall(t) / MinuteMs == t / MinuteMs + 540
  {
    var q, r := t / 60_000, t % 60_000;
    assert t + 32_400_000 == 60_000 * (q + 540) + r;
  }

  /** The last digit of a count survives taking it modulo 60. */
  lemma TensOfSixty(w: int)
    ensures (w % 60) % 10 == w % 10
  {
    var a, b := w / 60, w % 60;
    assert w == 60 * a + b;
    var c, d := b / 10, b % 10;
    assert b == 10 * c + d && 0 <= d < 10;
    assert w == 10 * (6 * a + c) + d;
  }

  /** `slotKey10m`: drop seconds and milliseconds, then step the minutes back to the
      previous multiple of ten. The result is the ten-minute slot that holds `t`. */
  function SlotKey(t: Instant): (k: Instant)
    ensures k % SlotMs == 0
    ensures k <= t < k + SlotMs
  {
    var f := FloorMinute(t);
    var m := Minutes(f);
    MinuteDigit(f);
    assert f / MinuteMs == t / MinuteMs;
    var q := t / MinuteMs;
    assert q == 10 * (q / 10) + q % 10;
    assert f - (m % 10) * MinuteMs == (q / 10) * SlotMs;
    f - (m % 10) * MinuteMs
  }

  /** Snapping twice is snapping once, and all instants of a slot share its key. */
  lemma SlotKeyIdempotent(t: Instant)
    ensures SlotKey(SlotKey(t)) == SlotKey(t)
  {
    SlotKeyUnique(SlotKey(t), SlotKey(t));
  }

  /** The slot key is the unique aligned instant less than ten minutes before `t`. */
  lemma SlotKeyUnique(t: Instant, k: Instant)
    requires k % SlotMs == 0 && k <= t < k + SlotMs
    ensures SlotKey(t) == k
  {
    AlignedClose(k, SlotKey(t));
  }

  /** Two aligned instants less than a slot apart are equal. */
  lemma AlignedClose(a: Instant, b: Instant)
    requires a % SlotMs == 0 && b % SlotMs == 0 && a - SlotMs < b < a + SlotMs
    ensures a == b
  {
    var x, y := a / 600000, b / 600000;
    assert a == 600000 * x && b == 600000 * y;
    assert -1 < y - x < 1;
  }

  /** The values taken by a walker that starts at `s` and steps ten minutes while it
      is before `e`: the loop `while (walker < end) { …; walker += 10 min }`. */
  function Walk(s: Instant, e: Instant): seq<Instant>
    decreases e - s
  {
    if s < e then [s] + Walk(s + SlotMs, e) else []
  }

  /** `x` is `s + 10·k` minutes for some `k` and lies before `e`. */
  predicate OnWalk(s: Instant, e: Instant, x: Instant) {
    s <= x < e && (x - s) % SlotMs == 0
  }

  /** The walk visits exactly the instants `s + 10·k` below `e`. */
  lemma {:induction false} WalkMembers(s: Instant, e: Instant)
    ensures forall x :: x in Walk(s, e) <==> OnWalk(s, e, x)
    decreases e - s
  {
    if s < e {
      WalkMembers(s + SlotMs, e);
      forall x | OnWalk(s, e, x) && x != s
        ensures OnWalk(s + SlotMs, e, x)
      {
        assert (x - (s + SlotMs)) % SlotMs == 0;
      }
    }
  }

  /** The walk has ⌈(e − s) / 10 min⌉ steps, none when `e <= s`. */
  lemma {:induction false} WalkLength(s: Instant, e: Instant)
    ensures s < e ==> |Walk(s, e)| == (e - s + SlotMs - 1) / SlotMs
    ensures e <= s ==> |Walk(s, e)| == 0
    decreases e - s
  {
    if s < e {
      WalkLength(s + SlotMs, e);
    }
  }

  /** Consecutive walker values are ten minutes apart, so the walk increases. */
  lemma {:induction false} WalkSteps(s: Instant, e: Instant)
    ensures forall i :: 0 <= i < |Walk(s, e)| ==> Walk(s, e)[i] == s + i * SlotMs
    decreases e - s
  {
    if s < e {
      WalkSteps(s + SlotMs, e);
    }
  }

  /** Splitting a walk at an aligned midpoint. */
  lemma {:induction false} WalkSplit(s: Instant, m: Instant, e: Instant)
    requires s <= m <= e && (m - s) % SlotMs == 0
    ensures Walk(s, e) == Walk(s, m) + Walk(m, e)
    decreases m - s
  {
    if s < m {
      WalkSplit(s + SlotMs, m, e);
    }
  }

  /** Adding a whole number of slots keeps the offset within a slot. */
  lemma SlotShift(a: int, d: int)
    requires d % SlotMs == 0
    ensures (a + d) % SlotMs == a % SlotMs
  {
    var c := d / 600_000;
    assert d == 600_000 * c;
    var q, r := a / 600_000, a % 600_000;
    assert a + d == 600_000 * (q + c) + r;
  }

  /** A walk from a later point of the same lattice visits the tail of the walk. */
  lemma WalkSuffix(base: Instant, r: Instant, e: Instant)
    requires base <= r && (r - base) % SlotMs == 0
    ensures forall x :: x in Walk(r, e) <==> x in Walk(base, e) && r <= x
  {
    WalkMembers(r, e);
    WalkMembers(base, e);
    forall x | x in Walk(r, e) || (x in Walk(base, e) && r <= x)
      ensures (x - r) % SlotMs == 0 <==> (x - base) % SlotMs == 0
    {
      SlotShift(x - r, r - base);
    }
  }

  /** `kstRoundedUpNow`: drop the seconds, then move the minutes up to the next
      multiple of ten unless they already are one. */
  function RoundedUpNow(now: Instant): (r: Instant)
    ensures r % SlotMs == 0
    ensures FloorMinute(now) <= r < FloorMinute(now) + SlotMs
  {
    var f := FloorMinute(now);
    var m := Minutes(f);
    MinuteDigit(f);
    var q := f / MinuteMs;
    assert f == 60_000 * q;
    assert q == 10 * (q / 10) + q % 10;
    assert m % 10 == 0 ==> f == 600_000 * (q / 10);
    assert m % 10 != 0 ==> f + (10 - m % 10) * MinuteMs == 600_000 * (q / 10 + 1);
    if m % 10 == 0 then f else f + (10 - m % 10) * MinuteMs
  }

  /** The rounded instant is the least aligned instant at or after the start of the
      current minute. */
  lemma RoundedUpNowLeast(now: Instant, k: Instant)
    requires k % SlotMs == 0 && k >= FloorMinute(now)
    ensures RoundedUpNow(now) <= k
  {
    var r := RoundedUpNow(now);
    if k < r {
      AlignedClose(r, k);
    }
  }

  /** The day number of a proleptic Gregorian date (month 1..12, any day), counted
      from 1970-01-01 (the days-from-civil algorithm). */
  function DaysFromCivil(y: int, m: int, d: int): int
    requires 1 <= m <= 12
  {
    var y' := if m <= 2 then y - 1 else y;
    var era := y' / 400;
    var yoe := y' - era * 400;
    var mp := if m > 2 then m - 3 else m + 9;
    var doy := (153 * mp + 2) / 5 + d - 1;
    var doe := yoe * 365 + yoe / 4 - yoe / 100 + doy;
    era * 146097 + doe - 719468
  }

  /** The epoch is day 0. */
  lemma DaysFromCivilEpoch()
    ensures DaysFromCivil(1970, 1, 1) == 0
  {
  }

  /** The Gregorian leap-year rule. */
  predicate LeapYear(y: int) {
    y % 4 == 0 && (y % 100 != 0 || y % 400 == 0)
  }

  /** The number of days of month `m` of year `y`. */
  function DaysInMonth(y: int, m: int): int
    requires 1 <= m <= 12
  {
    if m == 2 then (if LeapYear(y) then 29 else 28)
    else if m == 4 || m == 6 || m == 9 || m == 11 then 30
    else 31
  }

  /** The count steps by one from each calendar day to the next: within a month,
      from the last day of a month to the first of the next, and from the last day
      of a year to the first of the next. */
  lemma DaysFromCivilNextDay(y: int, m: int, d: int)
    requires 1 <= m <= 12
    ensures DaysFromCivil(y, m, d + 1) == DaysFromCivil(y, m, d) + 1
    ensures m < 12 ==> DaysFromCivil(y, m + 1, 1) == DaysFromCivil(y, m, DaysInMonth(y, m)) + 1
    ensures m == 12 ==> DaysFromCivil(y + 1, 1, 1) == DaysFromCivil(y, 12, 31) + 1
  {
    NextDayInMonth(y, m, d);
    if m == 2 {
      MarchFirst(y);
    } else if m < 12 {
      NextMonthFirst(y, m);
    } else {
      NewYearsDay(y);
    }
  }

  /** Within a month the count grows by one a day. */
  lemma NextDayInMonth(y: int, m: int, d: int)
    requires 1 <= m <= 12
    ensures DaysFromCivil(y, m, d + 1) == DaysFromCivil(y, m, d) + 1
  {
  }

  /** The first of a month other than March follows the last day of the month
      before, within one year of the algorithm's March-based years. */
  lemma NextMonthFirst(y: int, m: int)
    requires 1 <= m < 12 && m != 2
    ensures DaysFromCivil(y, m + 1, 1) == DaysFromCivil(y, m, DaysInMonth(y, m)) + 1
  {
    var mp := if m > 2 then m - 3 else m + 9;
    assert (153 * (mp + 1) + 2) / 5 == (153 * mp + 2) / 5 + DaysInMonth(y, m);
  }

  /** The first of January follows the 31st of December. */
  lemma NewYearsDay(y: int)
    ensures DaysFromCivil(y + 1, 1, 1) == DaysFromCivil(y, 12, 31) + 1
  {
  }

  /** The first of March follows the last day of February, 28 or 29 by the
      leap-year rule, across the 400-year eras of the algorithm too. */
  lemma MarchFirst(y: int)
    ensures DaysFromCivil(y, 3, 1) == DaysFromCivil(y, 2, DaysInMonth(y, 2)) + 1
  {
    var e := y / 400;
    var q := y - e * 400;
    if q == 0 {
      MarchFirstOfEra(y, e);
    } else {
      MarchFirstInEra(y, e, q);
    }
  }

  /** The first of March of a year divisible by 400 opens a new era; the day
      before is the leap day of the era's last year. */
  lemma MarchFirstOfEra(y: int, e: int)
    requires y == e * 400
    ensures DaysFromCivil(y, 3, 1) == DaysFromCivil(y, 2, DaysInMonth(y, 2)) + 1
  {
    EraOf(y - 1, e - 1, 399);
    EraOf(y, e, 0);
    EraResidues(y, e, 0);
    assert DaysInMonth(y, 2) == 29;
    assert DaysFromCivil(y, 3, 1) == e * 146097 - 719468;
    assert DaysFromCivil(y, 2, 29) == (e - 1) * 146097 + 399 * 365 + 99 - 3 + 336 + 29 - 719468;
  }

  /** Inside an era, the last day of February and the first of March are in
      consecutive years of the era. */
  lemma MarchFirstInEra(y: int, e: int, q: int)
    requires y == e * 400 + q && 1 <= q < 400
    ensures DaysFromCivil(y, 3, 1) == DaysFromCivil(y, 2, DaysInMonth(y, 2)) + 1
  {
    EraOf(y, e, q);
    EraOf(y - 1, e, q - 1);
    EraResidues(y, e, q);
    YearOfEraStep(q);
    assert DaysFromCivil(y, 3, 1) == e * 146097 + q * 365 + q / 4 - q / 100 - 719468;
    assert DaysFromCivil(y, 2, DaysInMonth(y, 2)) ==
      e * 146097 + (q - 1) * 365 + (q - 1) / 4 - (q - 1) / 100 + 336 + DaysInMonth(y, 2) - 719468;
  }

  /** The era and the place in the era of a year, by Euclidean division. */
  lemma EraOf(y: int, e: int, q: int)
    requires y == e * 400 + q && 0 <= q < 400
    ensures y / 400 == e && y - (y / 400) * 400 == q
  {
  }

  /** A year and its place in its era agree modulo 4, 100 and 400. */
  lemma EraResidues(y: int, e: int, q: int)
    requires y == e * 400 + q
    ensures y % 4 == q % 4 && y % 100 == q % 100 && y % 400 == q % 400
  {
    assert y == (e * 100) * 4 + q;
    assert y == (e * 4) * 100 + q;
  }

  /** Within an era the leap days before year `q` grow by one exactly at a leap
      year. */
  lemma YearOfEraStep(q: int)
    requires 1 <= q < 400
    ensures q / 4 - (q - 1) / 4 - (q / 100 - (q - 1) / 100) ==
      if q % 4 == 0 && q % 100 != 0 then 1 else 0
  {
    DivStep4(q);
    DivStep100(q);
    if q % 100 == 0 {
      assert q == 4 * (25 * (q / 100));
    }
  }

  /** The quotient by 4 steps up exactly at a multiple of 4. */
  lemma DivStep4(x: int)
    ensures x / 4 - (x - 1) / 4 == if x % 4 == 0 then 1 else 0
  {
  }

  /** The quotient by 100 steps up exactly at a multiple of 100. */
  lemma DivStep100(x: int)
    ensures x / 100 - (x - 1) / 100 == if x % 100 == 0 then 1 else 0
  {
  }

  /** The Date constructor's year rule: a year from 0 to 99 means 1900 + year. */
  function FullYear(y: int): int {
    if 0 <= y <= 99 then 1900 + y else y
  }

  /** `new Date(y, monthIndex, d, h, mi, s, ms)` in local time: the month index
      counts from 0 and carries into the year, every other field carries into the
      next larger one. */
  function MakeLocal(y: int, monthIndex: int, d: int, h: int, mi: int, s: int, ms: int): Instant {
    var ym := FullYear(y) + monthIndex / 12;
    var mn := monthIndex % 12;
    var day := DaysFromCivil(ym, mn + 1, 1) + d - 1;
    day * DayMs + h * HourMs + mi * MinuteMs + s * SecondMs + ms - KstOffsetMs
  }

  /** Reading back an in-range local date and time gives its fields. */
  lemma MakeLocalFields(y: int, monthIndex: int, d: int, h: int, mi: int)
    requires 0 <= monthIndex < 12 && 0 <= h < 24 && 0 <= mi < 60
    ensures DayNumber(MakeLocal(y, monthIndex, d, h, mi, 0, 0))
            == DaysFromCivil(FullYear(y), monthIndex + 1, 1) + d - 1
    ensures Hours(MakeLocal(y, monthIndex, d, h, mi, 0, 0)) == h
    ensures Minutes(MakeLocal(y, monthIndex, d, h, mi, 0, 0)) == mi
  {
    var day := DaysFromCivil(FullYear(y), monthIndex + 1, 1) + d - 1;
    assert monthIndex / 12 == 0 && monthIndex % 12 == monthIndex;
    assert MakeLocal(y, monthIndex, d, h, mi, 0, 0) == day * DayMs + h * HourMs + mi * MinuteMs - KstOffsetMs;
    WallFields(day, h, mi);
  }

  /** `${pad(getHours())}:${pad(getMinutes())}`. */
  function FormatHM(t: Instant): (r: string)
    ensures |r| == 5 && r[2] == ':'
  {
    Pad2Nat(Hours(t));
    Pad2Nat(Minutes(t));
    Pad2(NatToString(Hours(t))) + ":" + Pad2(NatToString(Minutes(t)))
  }

  /** The clock text reads back as the hour and the minute. */
  lemma FormatHMParses(t: Instant)
    ensures AllDigits(FormatHM(t)[..2]) && ParseNat(FormatHM(t)[..2]) == Hours(t)
    ensures AllDigits(FormatHM(t)[3..]) && ParseNat(FormatHM(t)[3..]) == Minutes(t)
  {
    Pad2Nat(Hours(t));
    Pad2Nat(Minutes(t));
    var r := FormatHM(t);
    assert r[..2] == Pad2(NatToString(Hours(t)));
    assert r[3..] == Pad2(NatToString(Minutes(t)));
  }
}
