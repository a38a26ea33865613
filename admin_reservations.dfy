/** The admin "reservations by date" page: every reservation is bucketed by the
    day it was created, each bucket sorted by the written `new Date(...createdAt)`
    (meant as newest first), the buckets latest day first;
    an admin force-cancels any reservation, with no time gate, and the entry is
    then removed from every bucket by id. */
module AdminReservations {
  import opened Wrappers
  import opened Text
  import opened Clock
  import opened Seqs
  import opened AdminDates

  /** One entry of `response.data.reservations`. Dates are the server's serialized
      local date-time arrays `[y, mo, d, h, mi, s, nanos]` (month 1-based, trailing
      zero fields omitted); a missing array is `None`. */
  datatype AdminReservation = AdminReservation(
    id: Option<int>,
    roomName: string,
    userId: Option<int>,
    startTime: Option<seq<int>>,
    endTime: Option<seq<int>>,
    createdAt: Option<seq<int>>)

  /** Every entry carries a creation array. Destructuring a missing one throws, in
      the grouping loop, before any state is set. */
  predicate AllStamped(rs: seq<AdminReservation>) {
    forall i :: 0 <= i < |rs| ==> rs[i].createdAt.Some?
  }

  /** The bucket name: `formatDateOnly(r.createdAt)`. Only read when `AllStamped`. */
  function DayText(r: AdminReservation): string {
    match r.createdAt
    case Some(a) => DateOnlyText(a)
    case None => ""
  }

  /** `new Date(...a).getTime()` as written: no argument is `now`, one argument is a
      time value, more are `(year, monthIndex, day, h, mi, s, ms)` in local time. The
      1-based month is passed as the month index and the nanoseconds as
      milliseconds, and an 8th element would be ignored. */
  function AsWrittenStamp(a: seq<int>, now: Instant): Instant {
    if |a| == 0 then now
    else if |a| == 1 then a[0]
    else MakeLocal(a[0], a[1], Part(a, 2, 1), Part(a, 3, 0), Part(a, 4, 0), Part(a, 5, 0), Part(a, 6, 0))
  }

  /** The creation instant the array denotes: month 1-based, element 6 in
      nanoseconds, truncated to whole milliseconds. */
  function CreatedStamp(a: seq<int>, now: Instant): Instant {
    if |a| == 0 then now
    else if |a| == 1 then a[0]
    else MakeLocal(a[0], a[1] - 1, Part(a, 2, 1), Part(a, 3, 0), Part(a, 4, 0), Part(a, 5, 0), Part(a, 6, 0) / 1000000)
  }

  /** The sort key of the written in-bucket sort. */
  function AsWrittenKey(now: Instant): AdminReservation -> int {
    (r: AdminReservation) => if r.createdAt.Some? then AsWrittenStamp(r.createdAt.value, now) else 0
  }

  /** The sort key of the in-bucket sort by creation time, newest first. */
  function CreatedKey(now: Instant): AdminReservation -> int {
    (r: AdminReservation) => if r.createdAt.Some? then CreatedStamp(r.createdAt.value, now) else 0
  }

  /** A creation array of a date of years 1000 to 9999 with every time field in range. */
  predicate WellFormedStamp(a: seq<int>) {
    3 <= |a| <= 7 && 1000 <= a[0] <= 9999 && 1 <= a[1] <= 12 && 1 <= a[2] <= 31 &&
    0 <= Part(a, 3, 0) < 24 && 0 <= Part(a, 4, 0) < 60 && 0 <= Part(a, 5, 0) < 60 &&
    0 <= Part(a, 6, 0) < 1000000000
  }

  /** The time of day of a creation array in whole seconds. */
  function DaySeconds(a: seq<int>): int {
    (Part(a, 3, 0) * 60 + Part(a, 4, 0)) * 60 + Part(a, 5, 0)
  }

  /** The time of day of a creation array in nanoseconds. */
  function DayNanos(a: seq<int>): int {
    DaySeconds(a) * 1000000000 + Part(a, 6, 0)
  }

  lemma DivShift(k: int, n: int)
    requires 0 <= n
    ensures (k * 1000000 + n) / 1000000 == k + n / 1000000
  {
  }

  /** On one creation day the creation instant is the day's start plus the time
      of day, at millisecond precision. */
  lemma CreatedStampOfDay(a: seq<int>, now: Instant)
    requires WellFormedStamp(a)
    ensures CreatedStamp(a, now) == MakeLocal(a[0], a[1] - 1, a[2], 0, 0, 0, 0) + DayNanos(a) / 1000000
  {
    var k := DaySeconds(a) * 1000;
    assert DayNanos(a) == k * 1000000 + Part(a, 6, 0);
    DivShift(k, Part(a, 6, 0));
  }

  /** Within a bucket the creation key follows the time of day: a stamp that is no
      later sorts no later. */
  lemma CreatedKeyMonotone(a: seq<int>, b: seq<int>, now: Instant)
    requires WellFormedStamp(a) && WellFormedStamp(b) && a[..3] == b[..3]
    requires DayNanos(a) <= DayNanos(b)
    ensures CreatedStamp(a, now) <= CreatedStamp(b, now)
  {
    SameDayCreated(a, b, now);
  }

  /** The written key of a well-formed array is the start of the day that the
      1-based month names as a month index, plus the time of day in which the
      nanoseconds count as milliseconds. */
  lemma AsWrittenStampOfDay(a: seq<int>, now: Instant)
    requires WellFormedStamp(a)
    ensures AsWrittenStamp(a, now) == MakeLocal(a[0], a[1], a[2], 0, 0, 0, 0) + DaySeconds(a) * 1000 + Part(a, 6, 0)
  {
  }

  /** On one creation day the written sort ranks `a` above `b` exactly when `a`'s
      nanoseconds exceed `b`'s by more than a thousand per second that `b` was
      created after `a`. */
  lemma AsWrittenOrderOfDay(a: seq<int>, b: seq<int>, now: Instant)
    requires WellFormedStamp(a) && WellFormedStamp(b) && a[..3] == b[..3]
    ensures AsWrittenStamp(a, now) > AsWrittenStamp(b, now) <==>
      Part(a, 6, 0) - Part(b, 6, 0) > 1000 * (DaySeconds(b) - DaySeconds(a))
  {
    AsWrittenStampOfDay(a, now);
    AsWrittenStampOfDay(b, now);
    assert a[0] == b[0] && a[1] == b[1] && a[2] == b[2];
  }

  /** The written sort misorders a bucket: whenever `a` was created in an earlier
      second than `b` of the same day but with that many more nanoseconds, `a` is
      the older entry and yet is ranked above `b`. */
  lemma AsWrittenMisorders(a: seq<int>, b: seq<int>, now: Instant)
    requires WellFormedStamp(a) && WellFormedStamp(b) && a[..3] == b[..3]
    requires DaySeconds(a) < DaySeconds(b)
    requires Part(a, 6, 0) - Part(b, 6, 0) > 1000 * (DaySeconds(b) - DaySeconds(a))
    ensures DateOnlyText(a) == DateOnlyText(b)
    ensures DayNanos(a) < DayNanos(b) && CreatedStamp(a, now) < CreatedStamp(b, now)
    ensures AsWrittenStamp(a, now) > AsWrittenStamp(b, now)
  {
    SameDayName(a, b);
    AsWrittenOrderOfDay(a, b, now);
    SameDayCreated(a, b, now);
    LaterSecondLater(a, b);
  }

  /** Arrays that agree on year, month and day share a bucket. */
  lemma SameDayName(a: seq<int>, b: seq<int>)
    requires |a| >= 3 && |b| >= 3 && a[..3] == b[..3]
    ensures DateOnlyText(a) == DateOnlyText(b)
  {
    assert a[0] == b[0] && a[1] == b[1] && a[2] == b[2];
    assert PartText(a, 0) == PartText(b, 0) && PartText(a, 1) == PartText(b, 1) && PartText(a, 2) == PartText(b, 2);
  }

  /** An array of a later whole second has a later time of day, in nanoseconds
      and in whole milliseconds. */
  lemma LaterSecondLater(a: seq<int>, b: seq<int>)
    requires WellFormedStamp(a) && WellFormedStamp(b) && DaySeconds(a) < DaySeconds(b)
    ensures DayNanos(a) < DayNanos(b) && DayNanos(a) / 1000000 < DayNanos(b) / 1000000
  {
    LaterSecondLaterMillis(DaySeconds(a), DaySeconds(b), Part(a, 6, 0), Part(b, 6, 0));
  }

  /** A time of day in a later whole second is later in nanoseconds and in whole
      milliseconds, whatever the nanoseconds. */
  lemma LaterSecondLaterMillis(sa: int, sb: int, na: int, nb: int)
    requires sa < sb && 0 <= na < 1000000000 && 0 <= nb < 1000000000
    ensures sa * 1000000000 + na < sb * 1000000000 + nb
    ensures (sa * 1000000000 + na) / 1000000 < (sb * 1000000000 + nb) / 1000000
  {
    DivShift(sa * 1000, na);
    DivShift(sb * 1000, nb);
    assert sa * 1000000000 == sa * 1000 * 1000000;
    assert sb * 1000000000 == sb * 1000 * 1000000;
  }

  /** Such a pair exists: two entries of 10 March 2025, 4.2 seconds apart. */
  lemma AsWrittenMisordersExample(now: Instant)
    ensures var a := [2025, 3, 10, 10, 0, 0, 900000000];
      var b := [2025, 3, 10, 10, 0, 5, 100000000];
      DateOnlyText(a) == DateOnlyText(b) && CreatedStamp(a, now) < CreatedStamp(b, now) &&
      AsWrittenStamp(a, now) > AsWrittenStamp(b, now)
  {
    var a := [2025, 3, 10, 10, 0, 0, 900000000];
    var b := [2025, 3, 10, 10, 0, 5, 100000000];
    assert a[..3] == b[..3];
    AsWrittenMisorders(a, b, now);
  }

  /** The bucket sort of the page as written: each bucket by `new Date(...createdAt)`,
      largest first. */
  function SortedBucket(rs: seq<AdminReservation>, day: string, now: Instant): seq<AdminReservation> {
    SortByKeyDesc(Bucket(rs, DayText, day), AsWrittenKey(now))
  }

  /** The bucket sort the page evidently intends: by the creation instant, newest
      first. */
  function IntendedBucket(rs: seq<AdminReservation>, day: string, now: Instant): seq<AdminReservation> {
    SortByKeyDesc(Bucket(rs, DayText, day), CreatedKey(now))
  }

  /** Every entry carries a well-formed creation array. */
  predicate AllWellFormed(rs: seq<AdminReservation>) {
    forall i :: 0 <= i < |rs| ==> rs[i].createdAt.Some? && WellFormedStamp(rs[i].createdAt.value)
  }

  /** The time of day an entry was created, in whole milliseconds. */
  function CreatedMillis(r: AdminReservation): int {
    if r.createdAt.Some? then DayNanos(r.createdAt.value) / 1000000 else 0
  }

  /** The intended sort lists a bucket's entries, each of that day, newest first
      to the millisecond. */
  lemma IntendedBucketNewestFirst(rs: seq<AdminReservation>, day: string, now: Instant)
    requires AllWellFormed(rs)
    ensures forall x :: x in IntendedBucket(rs, day, now) ==> x in rs && DayText(x) == day
    ensures NonIncreasingBy(IntendedBucket(rs, day, now), CreatedMillis)
  {
    var r := IntendedBucket(rs, day, now);
    forall x | x in r ensures x in rs && DayText(x) == day {
      BucketMember(rs, day, now, x);
    }
    forall i, j | 0 <= i < j < |r| ensures CreatedMillis(r[i]) >= CreatedMillis(r[j]) {
      BucketMember(rs, day, now, r[i]);
      BucketMember(rs, day, now, r[j]);
      SameDayStamps(rs, r[i], r[j], now);
    }
  }

  /** An entry of the intended sort comes from the list and has that day. */
  lemma BucketMember(rs: seq<AdminReservation>, day: string, now: Instant, x: AdminReservation)
    requires x in IntendedBucket(rs, day, now)
    ensures x in rs && DayText(x) == day
  {
    assert x in multiset(IntendedBucket(rs, day, now));
    BucketCount(rs, DayText, day, x);
  }

  /** Two well-formed entries of one bucket: their creation instants differ by
      their times of day. */
  lemma SameDayStamps(rs: seq<AdminReservation>, x: AdminReservation, y: AdminReservation, now: Instant)
    requires AllWellFormed(rs) && x in rs && y in rs && DayText(x) == DayText(y)
    ensures CreatedKey(now)(x) - CreatedKey(now)(y) == CreatedMillis(x) - CreatedMillis(y)
  {
    var i :| 0 <= i < |rs| && rs[i] == x;
    var j :| 0 <= j < |rs| && rs[j] == y;
    var a := x.createdAt.value;
    var b := y.createdAt.value;
    DateOnlyInjective(a, b);
    SameDayCreated(a, b, now);
  }

  /** Two well-formed arrays of one day: their creation instants differ by their
      times of day in whole milliseconds. */
  lemma SameDayCreated(a: seq<int>, b: seq<int>, now: Instant)
    requires WellFormedStamp(a) && WellFormedStamp(b) && a[..3] == b[..3]
    ensures CreatedStamp(a, now) - CreatedStamp(b, now) == DayNanos(a) / 1000000 - DayNanos(b) / 1000000
  {
    assert a[0] == b[0] && a[1] == b[1] && a[2] == b[2];
    var base := MakeLocal(a[0], a[1] - 1, a[2], 0, 0, 0, 0);
    assert base == MakeLocal(b[0], b[1] - 1, b[2], 0, 0, 0, 0);
    CreatedStampOfDay(a, now);
    CreatedStampOfDay(b, now);
  }

  /** The id filter of `removeReservationFromState`: `r.id !== reservationId`. */
  function NotId(id: int): AdminReservation -> bool {
    (r: AdminReservation) => r.id != Some(id)
  }

  /** The ids the confirm dialog proceeds with: `!reservationId` rejects a missing
      id and the id 0. */
  predicate TruthyId(id: Option<int>) {
    id.Some? && id.value != 0
  }

  /** The message shown when the list cannot be built. */
  const LoadError := "전체 예약 정보를 불러오는 데 실패했습니다."

  class Page {
    var grouped: map<string, seq<AdminReservation>>
    var sortedDates: seq<string>
    var loading: bool
    var error: Option<string>
    var cancelLoadingIds: set<int>

    constructor()
      ensures grouped == map[] && sortedDates == [] && loading && error == None && cancelLoadingIds == {}
    {
      grouped := map[];
      sortedDates := [];
      loading := true;
      error := None;
      cancelLoadingIds := {};
    }

    /** `fetchAllReservations`. `response` is `response.data.reservations || []`, or
        the failure. The list is bucketed by creation day, each bucket is sorted in
        place by the written `new Date(...createdAt)`, largest first, and the bucket
        names are sorted latest day first. A
        failed fetch, or an entry without a creation array, sets the error and
        leaves the buckets as they were. Loading ends either way. */
    method Load(response: Fetch<seq<AdminReservation>>, now: Instant)
      modifies this
      ensures !loading && cancelLoadingIds == old(cancelLoadingIds)
      ensures response.Failed? || !AllStamped(response.body) ==>
        error == Some(LoadError) && grouped == old(grouped) && sortedDates == old(sortedDates)
      ensures response.Fetched? && AllStamped(response.body) ==>
        error == old(error) &&
        grouped.Keys == KeySet(response.body, DayText) &&
        (forall d :: d in grouped ==> grouped[d] == SortedBucket(response.body, d, now)) &&
        sortedDates == SortByKeyDesc(FirstKeys(response.body, DayText), DateSortValue)
    {
      if response.Failed? || !AllStamped(response.body) {
        error := Some(LoadError);
        loading := false;
        return;
      }
      var rs := response.body;
      var order, groups := GroupBy(rs, DayText);
      FirstKeysSpec(rs, DayText);
      groups := UpdateListed(groups, order, (b: seq<AdminReservation>) => SortByKeyDesc(b, AsWrittenKey(now)));
      grouped := groups;
      sortedDates := SortByKeyDesc(order, DateSortValue);
      loading := false;
    }

    /** `removeReservationFromState`: every bucket loses exactly the entries with
        this id, in a loop over the bucket names; every name stays. */
    method RemoveReservation(id: int)
      modifies this
      ensures grouped.Keys == old(grouped).Keys
      ensures forall d :: d in grouped ==> grouped[d] == Filter(old(grouped)[d], NotId(id))
      ensures sortedDates == old(sortedDates) && loading == old(loading) && error == old(error)
      ensures cancelLoadingIds == old(cancelLoadingIds)
    {
      grouped := FilterEach(grouped, NotId(id));
    }

    /** The first half of `handleForceCancel`, up to the request: nothing for a
        falsy id or a declined confirm; otherwise the id is marked as in flight. */
    method BeginForceCancel(id: Option<int>, confirmed: bool) returns (started: bool)
      modifies this
      ensures started <==> TruthyId(id) && confirmed
      ensures cancelLoadingIds == if started then old(cancelLoadingIds) + {id.value} else old(cancelLoadingIds)
      ensures grouped == old(grouped) && sortedDates == old(sortedDates)
      ensures loading == old(loading) && error == old(error)
    {
      if !TruthyId(id) || !confirmed {
        return false;
      }
      cancelLoadingIds := cancelLoadingIds + {id.value};
      started := true;
    }

    /** The second half: after the server accepts, the entry is removed locally; in
        the `finally` block the id stops being in flight on both paths. */
    method FinishForceCancel(id: int, ok: bool)
      modifies this
      ensures grouped.Keys == old(grouped).Keys
      ensures forall d :: d in grouped ==>
        grouped[d] == if ok then Filter(old(grouped)[d], NotId(id)) else old(grouped)[d]
      ensures cancelLoadingIds == old(cancelLoadingIds) - {id}
      ensures sortedDates == old(sortedDates) && loading == old(loading) && error == old(error)
    {
      if ok {
        RemoveReservation(id);
      }
      cancelLoadingIds := cancelLoadingIds - {id};
    }

    /** `handleForceCancel` as one step. There is no time parameter: unlike the
        owner's gate, an admin may cancel a reservation that has already ended. */
    method ForceCancel(id: Option<int>, confirmed: bool, ok: bool) returns (started: bool)
      modifies this
      ensures started <==> TruthyId(id) && confirmed
      ensures !started ==> grouped == old(grouped) && cancelLoadingIds == old(cancelLoadingIds)
      ensures started ==>
        grouped.Keys == old(grouped).Keys &&
        (forall d :: d in grouped ==>
          grouped[d] == if ok then Filter(old(grouped)[d], NotId(id.value)) else old(grouped)[d]) &&
        cancelLoadingIds == old(cancelLoadingIds) - {id.value}
      ensures sortedDates == old(sortedDates) && loading == old(loading) && error == old(error)
    {
      started := BeginForceCancel(id, confirmed);
      if started {
        FinishForceCancel(id.value, ok);
      }
    }
  }

  /** Each entry lands in exactly one bucket, that of its creation day; the page's
      buckets run by the written key, largest first, and name every day once. */
  lemma GroupsSpec(rs: seq<AdminReservation>, day: string, r: AdminReservation, now: Instant)
    ensures multiset(SortedBucket(rs, day, now))[r] == if DayText(r) == day then multiset(rs)[r] else 0
    ensures NonIncreasingBy(SortedBucket(rs, day, now), AsWrittenKey(now))
    ensures Distinct(FirstKeys(rs, DayText))
    ensures forall d :: d in FirstKeys(rs, DayText) <==> d in KeySet(rs, DayText)
  {
    BucketCount(rs, DayText, day, r);
    FirstKeysSpec(rs, DayText);
  }

  /** The bucket names come latest first, and for names made from real dates that
      is later calendar day first. */
  lemma SortedDatesSpec(rs: seq<AdminReservation>, a: seq<int>, b: seq<int>)
    requires 3 <= |a| && 1000 <= a[0] <= 9999 && 1 <= a[1] <= 12 && 1 <= a[2] <= 31
    requires 3 <= |b| && 1000 <= b[0] <= 9999 && 1 <= b[1] <= 12 && 1 <= b[2] <= 31
    ensures NonIncreasingBy(SortByKeyDesc(FirstKeys(rs, DayText), DateSortValue), DateSortValue)
    ensures DateSortValue(DateOnlyText(a)) == DaysFromCivil(a[0], a[1], a[2]) * DayMs
    ensures DaysFromCivil(a[0], a[1], a[2]) < DaysFromCivil(b[0], b[1], b[2]) ==>
      DateSortValue(DateOnlyText(a)) < DateSortValue(DateOnlyText(b))
  {
    DateKeyRoundTrip(a);
    DateKeyRoundTrip(b);
  }

  /** Removing an id drops exactly its occurrences and keeps every other entry and
      the order a bucket was sorted into. */
  lemma RemovalSpec(bucket: seq<AdminReservation>, id: int, r: AdminReservation, now: Instant)
    requires NonIncreasingBy(bucket, AsWrittenKey(now))
    ensures multiset(Filter(bucket, NotId(id)))[r] == if r.id == Some(id) then 0 else multiset(bucket)[r]
    ensures NonIncreasingBy(Filter(bucket, NotId(id)), AsWrittenKey(now))
  {
    FilterCount(bucket, NotId(id), r);
    FilterNonIncreasing(bucket, NotId(id), AsWrittenKey(now));
  }
}
