/** Date helpers of the two admin list pages, written identically in both: the
    `YYYY-MM-DD` bucket name of a serialized date array, the full date-time text,
    the clock text, and `new Date(name)` on a bucket name, by which the buckets
    are ordered. */
module AdminDates {
  import opened Wrappers
  import opened Text
  import opened Clock

  /** `String(a[i])` after `const [y, mo, d] = a`: the decimal text, or `undefined`
      when the array is too short. */
  function PartText(a: seq<int>, i: nat): string {
    if i < |a| then IntToString(a[i]) else "undefined"
  }

  /** `String(a[i])` for an element with a destructuring default. */
  function PartOr(a: seq<int>, i: nat, default: int): string {
    IntToString(if i < |a| then a[i] else default)
  }

  /** `${y}-${String(mo).padStart(2, '0')}-${String(d).padStart(2, '0')}`. */
  function DateOnlyText(a: seq<int>): string {
    PartText(a, 0) + "-" + Pad2(PartText(a, 1)) + "-" + Pad2(PartText(a, 2))
  }

  /** `formatHM`: `''` for a non-array, else `HH:MM` of elements 3 and 4 (default 0). */
  function ClockText(a: Option<seq<int>>): string {
    match a
    case None => ""
    case Some(p) => Pad2(PartOr(p, 3, 0)) + ":" + Pad2(PartOr(p, 4, 0))
  }

  /** `formatFullDate`: `''` for a non-array, else the date, a blank and `HH:MM`
      with hour and minute defaulting to 0, the same text as `formatHM`. */
  function FullDateText(a: Option<seq<int>>): string {
    match a
    case None => ""
    case Some(p) => DateOnlyText(p) + " " + ClockText(a)
  }

  /** `formatTimeRange`. */
  function TimeRangeText(start: Option<seq<int>>, end: Option<seq<int>>): string {
    ClockText(start) + " ~ " + ClockText(end)
  }

  /** A string of the date-only form `YYYY-MM-DD` of ECMA-262's date time string
      format, with a month from 01 to 12 and a day from 01 to 31. */
  predicate IsDateOnlyForm(t: string) {
    |t| == 10 && AllDigits(t[..4]) && t[4] == '-' && AllDigits(t[5..7]) && t[7] == '-' &&
    AllDigits(t[8..]) && 1 <= ParseNat(t[5..7]) <= 12 && 1 <= ParseNat(t[8..]) <= 31
  }

  /** `new Date(t).getTime()` on a bucket name: a date-only form is midnight UTC of
      that day; anything else is an Invalid Date (`None`). */
  function DateKeyValue(t: string): (v: Option<Instant>)
    ensures v.Some? <==> IsDateOnlyForm(t)
  {
    if IsDateOnlyForm(t) then
      Some(DaysFromCivil(ParseNat(t[..4]), ParseNat(t[5..7]), ParseNat(t[8..])) * DayMs)
    else None
  }

  /** The key of the bucket sort `(a, b) => new Date(b) - new Date(a)`, with an
      Invalid Date counted as 0. */
  function DateSortValue(t: string): int {
    match DateKeyValue(t)
    case Some(v) => v
    case None => 0
  }

  /** A four-digit year, a month and a day are written as `YYYY-MM-DD`, and each
      field reads back from its place. */
  lemma DateOnlyFields(a: seq<int>)
    requires |a| >= 3 && 1000 <= a[0] <= 9999 && 1 <= a[1] <= 12 && 1 <= a[2] <= 31
    ensures |DateOnlyText(a)| == 10
    ensures AllDigits(DateOnlyText(a)[..4]) && ParseNat(DateOnlyText(a)[..4]) == a[0]
    ensures AllDigits(DateOnlyText(a)[5..7]) && ParseNat(DateOnlyText(a)[5..7]) == a[1]
    ensures AllDigits(DateOnlyText(a)[8..]) && ParseNat(DateOnlyText(a)[8..]) == a[2]
    ensures DateOnlyText(a)[4] == '-' && DateOnlyText(a)[7] == '-'
  {
    DateFieldTexts(a);
    FieldPositions(PartText(a, 0), "-", Pad2(PartText(a, 1)), Pad2(PartText(a, 2)));
  }

  /** The texts of a four-digit year, a month and a day: four digits and two pairs
      of digits that read back as the fields. */
  lemma DateFieldTexts(a: seq<int>)
    requires |a| >= 3 && 1000 <= a[0] <= 9999 && 1 <= a[1] <= 12 && 1 <= a[2] <= 31
    ensures |PartText(a, 0)| == 4 && AllDigits(PartText(a, 0)) && ParseNat(PartText(a, 0)) == a[0]
    ensures |Pad2(PartText(a, 1))| == 2 && AllDigits(Pad2(PartText(a, 1))) && ParseNat(Pad2(PartText(a, 1))) == a[1]
    ensures |Pad2(PartText(a, 2))| == 2 && AllDigits(Pad2(PartText(a, 2))) && ParseNat(Pad2(PartText(a, 2))) == a[2]
  {
    assert PartText(a, 0) == NatToString(a[0]);
    assert PartText(a, 1) == NatToString(a[1]);
    assert PartText(a, 2) == NatToString(a[2]);
    NatToStringLength(a[0]);
    ParseNatToString(a[0]);
    Pad2Nat(a[1]);
    Pad2Nat(a[2]);
  }

  /** Where the fields sit in `y`, separator, `m`, separator, `d` for a four-character
      `y` and two-character `m` and `d`. */
  lemma FieldPositions(y: string, sep: string, m: string, d: string)
    requires |y| == 4 && |sep| == 1 && |m| == 2 && |d| == 2
    ensures |y + sep + m + sep + d| == 10
    ensures (y + sep + m + sep + d)[4] == sep[0] && (y + sep + m + sep + d)[7] == sep[0]
    ensures (y + sep + m + sep + d)[..4] == y
    ensures (y + sep + m + sep + d)[5..7] == m && (y + sep + m + sep + d)[8..] == d
  {
    var t := y + sep + m + sep + d;
    assert t[..4] == y;
    assert t[5..7] == m;
    assert t[8..] == d;
  }

  /** `formatHM` of an array with an hour and a minute: `HH:MM`, each field read
      back from its place; a non-array is `''`. */
  lemma ClockFields(p: seq<int>)
    requires |p| >= 5 && 0 <= p[3] < 24 && 0 <= p[4] < 60
    ensures |ClockText(Some(p))| == 5 && ClockText(Some(p))[2] == ':'
    ensures AllDigits(ClockText(Some(p))[..2]) && ParseNat(ClockText(Some(p))[..2]) == p[3]
    ensures AllDigits(ClockText(Some(p))[3..]) && ParseNat(ClockText(Some(p))[3..]) == p[4]
    ensures ClockText(None) == ""
  {
    var h := Pad2(PartOr(p, 3, 0));
    var m := Pad2(PartOr(p, 4, 0));
    assert PartOr(p, 3, 0) == NatToString(p[3]);
    assert PartOr(p, 4, 0) == NatToString(p[4]);
    Pad2Nat(p[3]);
    Pad2Nat(p[4]);
    ClockPositions(h, m);
  }

  /** Where the hour and the minute sit in `HH:MM`. */
  lemma ClockPositions(h: string, m: string)
    requires |h| == 2 && |m| == 2
    ensures |h + ":" + m| == 5 && (h + ":" + m)[2] == ':'
    ensures (h + ":" + m)[..2] == h && (h + ":" + m)[3..] == m
  {
    assert (h + ":" + m)[..2] == h;
    assert (h + ":" + m)[3..] == m;
  }

  /** A missing hour and minute are shown as `00:00`, in the clock text and after
      the date in the full text. */
  lemma ClockDefaults(p: seq<int>)
    requires |p| <= 3
    ensures ClockText(Some(p)) == "00:00"
    ensures FullDateText(Some(p)) == DateOnlyText(p) + " 00:00"
  {
    assert PartOr(p, 3, 0) == "0" && PartOr(p, 4, 0) == "0";
  }

  /** `formatFullDate` of a full array: the `YYYY-MM-DD` name, a blank at place
      ten and the `HH:MM` clock text after it; a non-array is `''`. */
  lemma FullDateFields(p: seq<int>)
    requires |p| >= 5 && 1000 <= p[0] <= 9999 && 1 <= p[1] <= 12 && 1 <= p[2] <= 31
    requires 0 <= p[3] < 24 && 0 <= p[4] < 60
    ensures |FullDateText(Some(p))| == 16 && FullDateText(Some(p))[10] == ' '
    ensures FullDateText(Some(p))[..10] == DateOnlyText(p)
    ensures FullDateText(Some(p))[11..] == ClockText(Some(p))
    ensures FullDateText(None) == ""
  {
    DateOnlyFields(p);
    ClockFields(p);
    var d := DateOnlyText(p);
    var c := ClockText(Some(p));
    assert FullDateText(Some(p)) == d + " " + c;
    assert (d + " " + c)[..10] == d;
    assert (d + " " + c)[11..] == c;
  }

  /** `formatTimeRange` of two full arrays: `HH:MM ~ HH:MM`, the start's clock
      text before the separator and the end's after it. */
  lemma TimeRangeFields(start: seq<int>, end: seq<int>)
    requires |start| >= 5 && 0 <= start[3] < 24 && 0 <= start[4] < 60
    requires |end| >= 5 && 0 <= end[3] < 24 && 0 <= end[4] < 60
    ensures |TimeRangeText(Some(start), Some(end))| == 13
    ensures TimeRangeText(Some(start), Some(end))[..5] == ClockText(Some(start))
    ensures TimeRangeText(Some(start), Some(end))[5..8] == " ~ "
    ensures TimeRangeText(Some(start), Some(end))[8..] == ClockText(Some(end))
  {
    ClockFields(start);
    ClockFields(end);
    var t := TimeRangeText(Some(start), Some(end));
    assert t == ClockText(Some(start)) + " ~ " + ClockText(Some(end));
  }

  /** A bucket name made from a real date reads back as midnight UTC of that day. */
  lemma DateKeyRoundTrip(a: seq<int>)
    requires |a| >= 3 && 1000 <= a[0] <= 9999 && 1 <= a[1] <= 12 && 1 <= a[2] <= 31
    ensures DateKeyValue(DateOnlyText(a)) == Some(DaysFromCivil(a[0], a[1], a[2]) * DayMs)
  {
    DateOnlyFields(a);
  }

  /** Two real dates share a bucket exactly when they are the same day. */
  lemma DateOnlyInjective(a: seq<int>, b: seq<int>)
    requires |a| >= 3 && 1000 <= a[0] <= 9999 && 1 <= a[1] <= 12 && 1 <= a[2] <= 31
    requires |b| >= 3 && 1000 <= b[0] <= 9999 && 1 <= b[1] <= 12 && 1 <= b[2] <= 31
    ensures DateOnlyText(a) == DateOnlyText(b) <==> a[..3] == b[..3]
  {
    if DateOnlyText(a) == DateOnlyText(b) {
      assert a[..3] == b[..3] by {
        DateOnlyFields(a);
        DateOnlyFields(b);
        assert a[0] == b[0] && a[1] == b[1] && a[2] == b[2];
        assert a[..3] == [a[0], a[1], a[2]] && b[..3] == [b[0], b[1], b[2]];
      }
    }
    if a[..3] == b[..3] {
      assert DateOnlyText(a) == DateOnlyText(b) by {
        assert a[0] == b[0] && a[1] == b[1] && a[2] == b[2] by {
          assert a[0] == a[..3][0] && a[1] == a[..3][1] && a[2] == a[..3][2];
          assert b[0] == b[..3][0] && b[1] == b[..3][1] && b[2] == b[..3][2];
        }
        assert PartText(a, 0) == PartText(b, 0);
        assert PartText(a, 1) == PartText(b, 1);
        assert PartText(a, 2) == PartText(b, 2);
      }
    }
  }
}
