/** The community post card: how long ago a post was written, in minutes, hours
    or days, or its calendar date once it is a month old; and the board name. */
module PostCard {
  import opened Wrappers
  import opened Text
  import opened Clock
  import opened Seqs
  import opened AdminDates

  /** `new Date(y, (m || 1) - 1, d || 1, h || 0, min || 0)` for a date array; an
      empty array has no year, an Invalid Date (`None`). */
  function PostTime(a: seq<int>): Option<Instant> {
    if a == [] then None
    else
      var m := Part(a, 1, 0);
      var d := Part(a, 2, 0);
      Some(MakeLocal(a[0], (if m == 0 then 1 else m) - 1, if d == 0 then 1 else d, Part(a, 3, 0), Part(a, 4, 0), 0, 0))
  }

  /** The branch `formatDate` takes for a time difference in milliseconds, with
      the count it shows. */
  datatype Age = MinutesAgo(n: int) | HoursAgo(n: int) | DaysAgo(n: int) | OnDate

  /** `hrs < 24 ? (hrs < 1 ? minutes : hours) : days < 30 ? days : date`, each
      count `Math.floor`ed; every difference falls in exactly one branch, and the
      count is the whole number of units that have passed. */
  function AgeOf(diff: int): (g: Age)
    ensures g.MinutesAgo? <==> diff < HourMs
    ensures g.HoursAgo? <==> HourMs <= diff < DayMs
    ensures g.DaysAgo? <==> DayMs <= diff < 30 * DayMs
    ensures g.OnDate? <==> diff >= 30 * DayMs
    ensures g.MinutesAgo? ==> g.n < 60 && g.n * MinuteMs <= diff < (g.n + 1) * MinuteMs
    ensures g.HoursAgo? ==> 1 <= g.n < 24 && g.n * HourMs <= diff < (g.n + 1) * HourMs
    ensures g.DaysAgo? ==> 1 <= g.n < 30 && g.n * DayMs <= diff < (g.n + 1) * DayMs
  {
    if diff < DayMs then
      if diff < HourMs then MinutesAgo(diff / MinuteMs) else HoursAgo(diff / HourMs)
    else if diff < 30 * DayMs then DaysAgo(diff / DayMs)
    else OnDate
  }

  /** `${y}.${String(m).padStart(2, '0')}.${String(d).padStart(2, '0')}`, with the
      month and day as given, `undefined` when missing. */
  function CalendarText(a: seq<int>): string {
    PartText(a, 0) + "." + Pad2(PartText(a, 1)) + "." + Pad2(PartText(a, 2))
  }

  /** `formatDate(arr)` at the instant `now`; `None` is a value that is not an
      array. An Invalid Date compares false everywhere and so takes the date
      branch. */
  function FormatDate(arr: Option<seq<int>>, now: Instant): (t: string)
    ensures arr.None? ==> t == ""
    ensures arr.Some? && PostTime(arr.value).None? ==> t == CalendarText(arr.value)
    ensures arr.Some? && PostTime(arr.value).Some? ==>
      var diff := now - PostTime(arr.value).value;
      (diff < HourMs ==> t == IntToString(diff / MinuteMs) + "분 전") &&
      (HourMs <= diff < DayMs ==> t == IntToString(diff / HourMs) + "시간 전") &&
      (DayMs <= diff < 30 * DayMs ==> t == IntToString(diff / DayMs) + "일 전") &&
      (diff >= 30 * DayMs ==> t == CalendarText(arr.value))
  {
    match arr
    case None => ""
    case Some(a) =>
      match PostTime(a)
      case None => CalendarText(a)
      case Some(when) =>
        match AgeOf(now - when)
        case MinutesAgo(n) => IntToString(n) + "분 전"
        case HoursAgo(n) => IntToString(n) + "시간 전"
        case DaysAgo(n) => IntToString(n) + "일 전"
        case OnDate => CalendarText(a)
  }

  /** A post written `k` whole minutes before now (less than an hour) shows `k분 전`;
      missing hour and minute count as midnight. */
  lemma MinutesBucket(a: seq<int>, now: Instant, k: nat)
    requires |a| >= 1 && PostTime(a).Some?
    requires k < 60 && k * MinuteMs <= now - PostTime(a).value < (k + 1) * MinuteMs
    ensures FormatDate(Some(a), now) == IntToString(k) + "분 전"
  {
    var g := AgeOf(now - PostTime(a).value);
    assert g.MinutesAgo?;
    assert g.n == k;
  }

  /** A post at least thirty days old shows its calendar date. */
  lemma CalendarBucket(a: seq<int>, now: Instant)
    requires a != [] && now - PostTime(a).value >= 30 * DayMs
    ensures FormatDate(Some(a), now) == CalendarText(a)
  {
    assert AgeOf(now - PostTime(a).value).OnDate?;
  }

  /** For a real date the text is `YYYY.MM.DD` and each field reads back from its
      place. */
  lemma CalendarFields(a: seq<int>)
    requires |a| >= 3 && 1000 <= a[0] <= 9999 && 1 <= a[1] <= 12 && 1 <= a[2] <= 31
    ensures |CalendarText(a)| == 10 && CalendarText(a)[4] == '.' && CalendarText(a)[7] == '.'
    ensures AllDigits(CalendarText(a)[..4]) && ParseNat(CalendarText(a)[..4]) == a[0]
    ensures AllDigits(CalendarText(a)[5..7]) && ParseNat(CalendarText(a)[5..7]) == a[1]
    ensures AllDigits(CalendarText(a)[8..]) && ParseNat(CalendarText(a)[8..]) == a[2]
  {
    DateFieldTexts(a);
    FieldPositions(PartText(a, 0), ".", Pad2(PartText(a, 1)), Pad2(PartText(a, 2)));
  }

  /** A missing month or day counts as the first, a missing hour or minute as 0. */
  lemma PartsDefault(y: int)
    ensures PostTime([y]) == Some(MakeLocal(y, 0, 1, 0, 0, 0, 0))
    ensures PostTime([y, 0, 0]) == PostTime([y])
  {
  }

  const GeneralBoard := "일반 게시판"
  const LostFoundBoard := "분실물 게시판"

  /** `getCategoryName`: category 1 is the general board, every other value the
      lost-and-found board. */
  function CategoryName(c: int): (n: string)
    ensures n == GeneralBoard <==> c == 1
    ensures n == LostFoundBoard <==> c != 1
  {
    assert GeneralBoard[0] != LostFoundBoard[0];
    if c == 1 then GeneralBoard else LostFoundBoard
  }
}
