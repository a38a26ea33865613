/** The "my reservations" page: cancelled bookings are hidden, the rest is sorted
    newest start first and grouped by the local date of its start. */
module ReservationList {
  import opened Wrappers
  import opened Text
  import opened Clock
  import opened Seqs
  import opened Reservations
  import opened ReservationStore

  /** `toDateFromRaw`: `null` for a falsy value; an array
      `[y, m = 1, d = 1, hh = 0, mm = 0, ss = 0, ms = 0]` read as a local date with a
      1-based month (an empty array has no year and is an Invalid Date); a string
      that does not parse is `null` as well. */
  function ToDateFromRaw(raw: RawTime): (p: ParsedTime)
    ensures !Truthy(raw) ==> p == Null
    ensures raw.Text? && raw.parsed.None? ==> p == Null
    ensures p == Invalid <==> raw == Parts([])
  {
    match raw
    case Absent => Null
    case Parts(a) =>
      if |a| == 0 then Invalid
      else At(MakeLocal(a[0], Part(a, 1, 1) - 1, Part(a, 2, 1), Part(a, 3, 0), Part(a, 4, 0), Part(a, 5, 0), Part(a, 6, 0)))
    case Text(s, v) =>
      if s == "" then Null
      else match v
        case None => Null
        case Some(t) => At(t)
  }

  /** For an array of three to five numbers this page and the reservation store read
      the same instant. */
  lemma ListDateAgreesWithStore(a: seq<int>)
    requires 3 <= |a| <= 5
    ensures ToDateFromRaw(Parts(a)) == ParseToDate(Parts(a))
  {
  }

  /** `norm(v)`: `String(v ?? '').toUpperCase().trim()`. */
  function Norm(v: Option<string>): string {
    Trim(ToUpperAscii(if v.Some? then v.value else ""))
  }

  /** `isCanceled`: either cancellation stamp is set, or the normalised status is
      `CANCELLED` or `CANCELED`. */
  predicate IsCanceled(r: Reservation) {
    Truthy(r.canceledAt) || Truthy(r.cancelledAt) ||
    Norm(r.status) == "CANCELLED" || Norm(r.status) == "CANCELED"
  }

  /** Upper-casing twice is upper-casing once, so the status test ignores case. */
  lemma {:induction false} NormIgnoresCase(s: string)
    ensures Norm(Some(ToUpperAscii(s))) == Norm(Some(s))
  {
    UpperIdempotent(s);
  }

  /** A leading blank does not change the normalised status. */
  lemma {:induction false} NormIgnoresLeadingBlank(s: string)
    ensures Norm(Some([' '] + s)) == Norm(Some(s))
  {
    var u := ToUpperAscii(s);
    assert ToUpperAscii([' '] + s) == [' '] + u;
    assert ([' '] + u)[1..] == u;
    assert IsSpace(([' '] + u)[0]);
    assert TrimStart([' '] + u) == TrimStart(u);
  }

  /** The live status normalises to itself. */
  lemma {:induction false} NormReserved()
    ensures Norm(Some("RESERVED")) == "RESERVED"
  {
    var s := "RESERVED";
    assert forall i :: 0 <= i < |s| ==> 'A' <= s[i] <= 'Z';
    NormFixed(s);
  }

  /** Upper-case text without surrounding white space normalises to itself. */
  lemma NormFixed(s: string)
    requires s != [] && forall i :: 0 <= i < |s| ==> 'A' <= s[i] <= 'Z'
    ensures Norm(Some(s)) == s
  {
    UpperFixed(s);
    assert ToUpperAscii(s) == s;
    TrimFixed(s);
  }

  /** A live booking with no cancellation stamp stays visible. */
  lemma {:induction false} ReservedIsNotCanceled(r: Reservation)
    requires IsReserved(r) && !Truthy(r.canceledAt) && !Truthy(r.cancelledAt)
    ensures !IsCanceled(r)
  {
    var s := "RESERVED";
    NormReserved();
    assert s[0] != "CANCELED"[0] && |s| != |"CANCELLED"|;
    assert s != "CANCELED" && s != "CANCELLED";
  }

  /** The start field this page reads: `r.startTime ?? r.reservationStartTime`. */
  function ListStartRaw(r: Reservation): RawTime {
    Coalesce(r.startTime, r.reservationStartTime)
  }

  /** The sort key of `sortByStartDesc`: `toDateFromRaw(...)?.getTime() ?? 0`. */
  function StartMs(r: Reservation): int {
    SortValue(ToDateFromRaw(ListStartRaw(r)))
  }

  /** The bucket name of `groupByDate`: the start's local calendar day
      (`toLocaleDateString`), or `'Invalid Date'`. A `null` start is put there
      explicitly, and the locale string of an Invalid Date is that same text. */
  datatype DateKey = InvalidDate | OnDay(day: int)

  function DateKeyOf(r: Reservation): (k: DateKey)
    ensures k.OnDay? <==> ToDateFromRaw(ListStartRaw(r)).At?
    ensures k.OnDay? ==> k.day == DayNumber(ToDateFromRaw(ListStartRaw(r)).instant)
  {
    match ToDateFromRaw(ListStartRaw(r))
    case At(t) => OnDay(DayNumber(t))
    case _ => InvalidDate
  }

  /** `!isCanceled(r)`, the filter of `buildGrouped`. */
  function Visible(): Reservation -> bool {
    r => !IsCanceled(r)
  }

  /** `(reservations ?? []).filter(r => !isCanceled(r)).sort(sortByStartDesc)`. */
  function VisibleSorted(rs: seq<Reservation>): seq<Reservation> {
    SortByKeyDesc(Filter(rs, Visible()), StartMs)
  }

  /** The visible list drops every cancelled booking, keeps every other occurrence,
      and runs from the latest start to the earliest. */
  lemma VisibleSortedSpec(rs: seq<Reservation>)
    ensures forall r :: multiset(VisibleSorted(rs))[r] == if IsCanceled(r) then 0 else multiset(rs)[r]
    ensures NonIncreasingBy(VisibleSorted(rs), StartMs)
  {
    forall r ensures multiset(VisibleSorted(rs))[r] == if IsCanceled(r) then 0 else multiset(rs)[r] {
      FilterCount(rs, Visible(), r);
    }
  }

  /** `buildGrouped`: the grouping loop over the visible list. `dates` lists the
      bucket names in the order the buckets were created. */
  method BuildGrouped(rs: seq<Reservation>) returns (dates: seq<DateKey>, grouped: map<DateKey, seq<Reservation>>)
    ensures dates == FirstKeys(VisibleSorted(rs), DateKeyOf)
    ensures grouped.Keys == KeySet(VisibleSorted(rs), DateKeyOf)
    ensures forall k :: k in grouped ==> grouped[k] == Bucket(VisibleSorted(rs), DateKeyOf, k)
  {
    dates, grouped := GroupBy(VisibleSorted(rs), DateKeyOf);
  }

  /** Each bucket holds exactly the visible bookings of its day, every one of them
      once per occurrence in the fetched list, latest start first; the bucket
      names appear once each. */
  lemma GroupedSpec(rs: seq<Reservation>, k: DateKey, r: Reservation)
    ensures multiset(Bucket(VisibleSorted(rs), DateKeyOf, k))[r] ==
      if DateKeyOf(r) == k && !IsCanceled(r) then multiset(rs)[r] else 0
    ensures NonIncreasingBy(Bucket(VisibleSorted(rs), DateKeyOf, k), StartMs)
    ensures Distinct(FirstKeys(VisibleSorted(rs), DateKeyOf))
  {
    VisibleSortedSpec(rs);
    BucketCount(VisibleSorted(rs), DateKeyOf, k, r);
    BucketNonIncreasing(VisibleSorted(rs), DateKeyOf, k, StartMs);
    FirstKeysSpec(VisibleSorted(rs), DateKeyOf);
  }

  /** `k !== 'Invalid Date'`, the filter on the rendered entries. */
  function IsDay(): DateKey -> bool {
    (k: DateKey) => k.OnDay?
  }

  /** What a page load or a cancellation ends in. */
  datatype CancelOutcome = NothingToCancel | CancelFailed | RefetchFailed | Cancelled

  class Page {
    var dates: seq<DateKey>
    var grouped: map<DateKey, seq<Reservation>>
    var loading: bool
    var cancelModalData: Option<Reservation>

    constructor()
      ensures dates == [] && grouped == map[] && loading && cancelModalData == None
    {
      dates := [];
      grouped := map[];
      loading := true;
      cancelModalData := None;
    }

    /** The page shows the grouping of `rs`: its day names in order and, under
        each, that day's visible bookings. */
    ghost predicate Shows(rs: seq<Reservation>)
      reads this
    {
      dates == FirstKeys(VisibleSorted(rs), DateKeyOf) &&
      grouped.Keys == KeySet(VisibleSorted(rs), DateKeyOf) &&
      forall k :: k in grouped ==> grouped[k] == Bucket(VisibleSorted(rs), DateKeyOf, k)
    }

    /** The rendered dates: every bucket name except `'Invalid Date'`, in order. */
    function Shown(): (ks: seq<DateKey>)
      reads this
      ensures forall k :: k in ks <==> k in dates && k.OnDay?
    {
      Filter(dates, IsDay())
    }

    /** The loading effect and `fetchReservations`: without a token or a user id the
        page shows nothing; otherwise the fetched list is grouped, and a failed
        fetch shows nothing. Loading ends either way. */
    method Load(signedIn: bool, response: Fetch<seq<Reservation>>)
      modifies this
      ensures !loading && cancelModalData == old(cancelModalData)
      ensures !signedIn || response.Failed? ==> dates == [] && grouped == map[]
      ensures signedIn && response.Fetched? ==> Shows(response.body)
    {
      if !signedIn || response.Failed? {
        dates, grouped := [], map[];
      } else {
        dates, grouped := BuildGrouped(response.body);
      }
      loading := false;
    }

    /** `handleCancelReservation`: the row's reservation becomes the modal's data. */
    method OpenCancel(r: Reservation)
      modifies this
      ensures cancelModalData == Some(r)
      ensures dates == old(dates) && grouped == old(grouped) && loading == old(loading)
    {
      cancelModalData := Some(r);
    }

    /** `confirmCancelReservation`: nothing without modal data or a user id. After
        the cancel request succeeds the modal closes and the list is fetched
        again; if that fetch succeeds the groups are rebuilt from it and the
        store's index is refreshed, and if it fails the old groups stay. */
    method ConfirmCancel(store: Store, hasUserId: bool, cancelOk: bool,
                         refetch: Fetch<seq<Reservation>>, all: Fetch<seq<Reservation>>)
      returns (outcome: CancelOutcome)
      modifies this, store
      ensures outcome == NothingToCancel <==> old(cancelModalData).None? || !hasUserId
      ensures outcome == CancelFailed <==> old(cancelModalData).Some? && hasUserId && !cancelOk
      ensures outcome == Cancelled <==> outcome != NothingToCancel && outcome != CancelFailed && refetch.Fetched?
      ensures outcome == NothingToCancel || outcome == CancelFailed ==>
        cancelModalData == old(cancelModalData)
      ensures outcome == RefetchFailed || outcome == Cancelled ==> cancelModalData == None
      ensures outcome != Cancelled ==>
        dates == old(dates) && grouped == old(grouped) &&
        store.reservedTimeSlotsByRoom == old(store.reservedTimeSlotsByRoom)
      ensures outcome == Cancelled ==>
        Shows(refetch.body) &&
        store.reservedTimeSlotsByRoom == (if all.Fetched? then BuildIndex(all.body) else map[])
      ensures loading == old(loading)
      ensures store.latestReservation == old(store.latestReservation)
      ensures store.userReservations == old(store.userReservations)
    {
      if cancelModalData.None? || !hasUserId {
        return NothingToCancel;
      }
      if !cancelOk {
        return CancelFailed;
      }
      cancelModalData := None;
      if refetch.Failed? {
        return RefetchFailed;
      }
      Refresh(store, refetch.body, all);
      outcome := Cancelled;
    }

    /** The success path of a cancellation: the groups are rebuilt from the
        refetched list and the store's index from the full list. */
    method Refresh(store: Store, rs: seq<Reservation>, all: Fetch<seq<Reservation>>)
      modifies this, store
      ensures Shows(rs)
      ensures store.reservedTimeSlotsByRoom == if all.Fetched? then BuildIndex(all.body) else map[]
      ensures loading == old(loading) && cancelModalData == old(cancelModalData)
      ensures store.latestReservation == old(store.latestReservation)
      ensures store.userReservations == old(store.userReservations)
    {
      dates, grouped := BuildGrouped(rs);
      store.FetchAllReservedTimes(all);
    }
  }
}
