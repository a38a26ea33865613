/** The client-side reservation store: the latest reservation of the signed-in
    user, the user's upcoming reservations, and the per-room occupancy index that
    both booking components read. Every fetch replaces one field wholesale. */
module ReservationStore {
  import opened Wrappers
  import opened Clock
  import opened Seqs
  import opened Reservations

  /** The half-open interval a reservation occupies in the index: only a RESERVED
      reservation whose start and end both parse to valid dates has one. */
  function Span(r: Reservation): (sp: Option<(Instant, Instant)>)
    ensures sp.Some? ==> IsReserved(r)
  {
    if !IsReserved(r) then None
    else match (ParseToDate(StartRaw(r)), ParseToDate(EndRaw(r)))
      case (At(s), At(e)) => Some((s, e))
      case _ => None
  }

  predicate Contributes(r: Reservation) {
    Span(r).Some?
  }

  /** Room id to the instants the index walker visited in that room, in visiting
      order (the store keeps them as ISO strings; an ISO string of a whole-millisecond
      instant reads back as the same instant, so the model keeps the instants). */
  type Index = map<int, seq<Instant>>

  /** `reservedTimeSlotsByRoom?.[roomId] || []`. */
  function Lookup(m: Index, room: int): seq<Instant> {
    if room in m then m[room] else []
  }

  /** Pushing the visited instants onto a room's list; the list is created only when
      the first instant is pushed. */
  function Append(m: Index, room: int, visited: seq<Instant>): Index {
    if visited == [] then m else m[room := Lookup(m, room) + visited]
  }

  /** The effect of one reservation on the index being built. */
  function AddReservation(m: Index, r: Reservation): Index {
    match Span(r)
    case None => m
    case Some((s, e)) => Append(m, r.roomId, Walk(s, e))
  }

  /** The index built from a reservation list, one reservation after the other. */
  function BuildIndex(rs: seq<Reservation>): Index
    decreases |rs|
  {
    if rs == [] then map[] else AddReservation(BuildIndex(rs[..|rs| - 1]), rs[|rs| - 1])
  }

  /** Reservation `r` puts instant `x` into the list of `room`. */
  predicate Covers(r: Reservation, room: int, x: Instant) {
    Span(r).Some? && r.roomId == room && OnWalk(Span(r).value.0, Span(r).value.1, x)
  }

  /** An instant is in a room's list iff some contributing reservation for that room
      visits it: RESERVED status, valid dates, and `start + 10·k < end`. */
  lemma {:induction false} IndexMembers(rs: seq<Reservation>, room: int, x: Instant)
    ensures x in Lookup(BuildIndex(rs), room) <==> exists i :: 0 <= i < |rs| && Covers(rs[i], room, x)
    decreases |rs|
  {
    if rs != [] {
      var p := rs[..|rs| - 1];
      var r := rs[|rs| - 1];
      IndexMembers(p, room, x);
      if Span(r).Some? {
        WalkMembers(Span(r).value.0, Span(r).value.1);
      }
      if exists i :: 0 <= i < |p| && Covers(p[i], room, x) {
        var i :| 0 <= i < |p| && Covers(p[i], room, x);
        assert rs[i] == p[i];
      }
      if exists i :: 0 <= i < |rs| && Covers(rs[i], room, x) {
        var i :| 0 <= i < |rs| && Covers(rs[i], room, x);
        if i < |p| {
          assert p[i] == rs[i];
        }
      }
    }
  }

  /** Rooms get a list only when something is pushed: no list in the index is empty. */
  lemma {:induction false} IndexListsNonEmpty(rs: seq<Reservation>)
    ensures forall room :: room in BuildIndex(rs) ==> BuildIndex(rs)[room] != []
    decreases |rs|
  {
    if rs != [] {
      IndexListsNonEmpty(rs[..|rs| - 1]);
    }
  }

  /** A contributing reservation appends exactly ⌈(end − start) / 10 min⌉ instants to
      its own room and nothing to any other room. */
  lemma AddReservationCount(m: Index, r: Reservation, room: int)
    requires Contributes(r)
    ensures var (s, e) := Span(r).value;
      |Lookup(AddReservation(m, r), room)| ==
        |Lookup(m, room)| + (if room == r.roomId && s < e then (e - s + SlotMs - 1) / SlotMs else 0)
  {
    var (s, e) := Span(r).value;
    WalkLength(s, e);
  }

  /** Entries that do not contribute (not RESERVED, or a missing or invalid date)
      leave no trace: the index equals the index of the contributing entries alone. */
  lemma {:induction false} IndexIgnoresOthers(rs: seq<Reservation>)
    ensures BuildIndex(rs) == BuildIndex(Filter(rs, Contributes))
    decreases |rs|
  {
    if rs != [] {
      var p := rs[..|rs| - 1];
      var r := rs[|rs| - 1];
      IndexIgnoresOthers(p);
      var f := Filter(p, Contributes);
      if Contributes(r) {
        assert Filter(rs, Contributes) == f + [r];
        assert (f + [r])[..|f + [r]| - 1] == f;
      } else {
        assert Filter(rs, Contributes) == f;
      }
    }
  }

  /** An upcoming reservation of the user: RESERVED and `parseToDate(endTime) > now`
      (only the `endTime` field is read here, without the fallback field). */
  predicate IsUpcoming(r: Reservation, now: Instant) {
    IsReserved(r) && After(ParseToDate(r.endTime), now)
  }

  /** The sort key `parseToDate(startTime)` of the upcoming list. */
  function StartValue(r: Reservation): int {
    SortValue(ParseToDate(r.startTime))
  }

  /** The upcoming reservations, earliest start first. */
  function Upcoming(rs: seq<Reservation>, now: Instant): (u: seq<Reservation>)
    ensures forall r :: r in u <==> r in rs && IsUpcoming(r, now)
    ensures forall r :: multiset(u)[r] == if IsUpcoming(r, now) then multiset(rs)[r] else 0
    ensures forall i, j :: 0 <= i < j < |u| ==> StartValue(u[i]) <= StartValue(u[j])
  {
    var p := (r: Reservation) => IsUpcoming(r, now);
    var f := Filter(rs, p);
    forall r ensures multiset(f)[r] == if IsUpcoming(r, now) then multiset(rs)[r] else 0 {
      FilterCount(rs, p, r);
    }
    SortByKey(f, StartValue)
  }

  /** How the engine reads an array handed to `new Date`: the array becomes its
      comma-joined text (`"2025,3,10,9,0"`), a string outside the date time string
      format of ECMA-262, whose parse section 21.4.3.2 leaves to the engine; `None`
      is an Invalid Date. */
  type JoinedParse = seq<int> -> Option<Instant>

  /** `new Date(createdAt)` as a number: a string's parsed instant, an array's
      joined text as the engine reads it; a missing value is `NaN` or the epoch,
      and an Invalid Date `NaN`, which this model counts as 0. */
  function CreatedValue(r: Reservation, joined: JoinedParse): int {
    match r.createdAt
    case Text(_, Some(t)) => t
    case Parts(a) => if joined(a).Some? then joined(a).value else 0
    case _ => 0
  }

  /** The sort key `new Date(x.createdAt)` of the newest-first sort. */
  function CreatedKey(joined: JoinedParse): Reservation -> int {
    (r: Reservation) => CreatedValue(r, joined)
  }

  /** The reservation with the latest `createdAt`: first after sorting newest first. */
  function Latest(rs: seq<Reservation>, joined: JoinedParse): (l: Option<Reservation>)
    ensures l.None? <==> rs == []
    ensures l.Some? ==> l.value in rs && forall r :: r in rs ==> CreatedValue(r, joined) <= CreatedValue(l.value, joined)
  {
    var sorted := SortByKeyDesc(rs, CreatedKey(joined));
    if sorted == [] then None
    else
      assert sorted[0] in multiset(rs);
      forall r | r in rs ensures CreatedValue(r, joined) <= CreatedValue(sorted[0], joined) {
        assert r in multiset(sorted);
        var j :| 0 <= j < |sorted| && sorted[j] == r;
        if j > 0 {
          assert CreatedKey(joined)(sorted[0]) >= CreatedKey(joined)(sorted[j]);
        }
      }
      Some(sorted[0])
  }

  /** The inner loop of `fetchAllReservedTimes`: from `start`, in steps of ten
      minutes while before `end`, each instant is pushed onto the list of `room`,
      which is created at the first push. */
  method PushSlots(m: Index, room: int, start: Instant, end: Instant) returns (next: Index)
    ensures next == Append(m, room, Walk(start, end))
  {
    next := m;
    var temp := start;
    ghost var visited: seq<Instant> := [];
    while temp < end
      invariant visited + Walk(temp, end) == Walk(start, end)
      invariant next == Append(m, room, visited)
      decreases end - temp
    {
      assert Lookup(next, room) == Lookup(m, room) + visited;
      assert Lookup(m, room) + (visited + [temp]) == Lookup(m, room) + visited + [temp];
      assert Append(m, room, visited + [temp]) == next[room := Lookup(next, room) + [temp]];
      if room !in next {
        next := next[room := []];
      }
      next := next[room := next[room] + [temp]];
      visited := visited + [temp];
      temp := temp + SlotMs;
    }
    assert visited == Walk(start, end);
  }

  class Store {
    var latestReservation: Option<Reservation>
    var userReservations: seq<Reservation>
    var reservedTimeSlotsByRoom: Index

    constructor()
      ensures latestReservation == None && userReservations == [] && reservedTimeSlotsByRoom == map[]
    {
      latestReservation := None;
      userReservations := [];
      reservedTimeSlotsByRoom := map[];
    }

    /** `setUserReservations`. */
    method SetUserReservations(rs: seq<Reservation>)
      modifies this
      ensures userReservations == rs
      ensures latestReservation == old(latestReservation)
      ensures reservedTimeSlotsByRoom == old(reservedTimeSlotsByRoom)
    {
      userReservations := rs;
    }

    /** `fetchLatestReservation`; `signedIn` is "user id and access token present",
        and `joined` is the engine's reading of an array `createdAt`. */
    method FetchLatestReservation(signedIn: bool, response: Fetch<seq<Reservation>>, joined: JoinedParse)
      modifies this
      ensures !signedIn ==> latestReservation == old(latestReservation)
      ensures signedIn ==> latestReservation == if response.Fetched? then Latest(response.body, joined) else None
      ensures userReservations == old(userReservations)
      ensures reservedTimeSlotsByRoom == old(reservedTimeSlotsByRoom)
    {
      if !signedIn {
        return;
      }
      if response.Failed? {
        latestReservation := None;
      } else {
        latestReservation := Latest(response.body, joined);
      }
    }

    /** `fetchAllUserReservations`: no request without credentials, the upcoming
      list on success, the empty list on failure. */
    method FetchAllUserReservations(signedIn: bool, response: Fetch<seq<Reservation>>, now: Instant)
      modifies this
      ensures !signedIn ==> userReservations == old(userReservations)
      ensures signedIn ==> userReservations == if response.Fetched? then Upcoming(response.body, now) else []
      ensures latestReservation == old(latestReservation)
      ensures reservedTimeSlotsByRoom == old(reservedTimeSlotsByRoom)
    {
      if !signedIn {
        return;
      }
      if response.Failed? {
        userReservations := [];
      } else {
        userReservations := Upcoming(response.body, now);
      }
    }

    /** The three refetches the booking handler awaits together with
        `Promise.all`; each replaces its own field, so their order does not
        matter. */
    method RefetchAfterBooking(signedIn: bool, now: Instant, latest: Fetch<seq<Reservation>>,
                               mine: Fetch<seq<Reservation>>, all: Fetch<seq<Reservation>>,
                               joined: JoinedParse)
      modifies this
      ensures latestReservation ==
        if signedIn then (if latest.Fetched? then Latest(latest.body, joined) else None)
        else old(latestReservation)
      ensures userReservations ==
        if signedIn then (if mine.Fetched? then Upcoming(mine.body, now) else [])
        else old(userReservations)
      ensures reservedTimeSlotsByRoom == if all.Fetched? then BuildIndex(all.body) else map[]
    {
      FetchLatestReservation(signedIn, latest, joined);
      FetchAllUserReservations(signedIn, mine, now);
      FetchAllReservedTimes(all);
    }

    /** `fetchAllReservedTimes`: rebuilds the index from the fetched list with the
      store's own loops, or empties it when the fetch fails. */
    method FetchAllReservedTimes(response: Fetch<seq<Reservation>>)
      modifies this
      ensures reservedTimeSlotsByRoom == if response.Fetched? then BuildIndex(response.body) else map[]
      ensures latestReservation == old(latestReservation)
      ensures userReservations == old(userReservations)
    {
      if response.Failed? {
        reservedTimeSlotsByRoom := map[];
        return;
      }
      var all := response.body;
      var reservedMap: Index := map[];
      var i := 0;
      while i < |all|
        invariant 0 <= i <= |all|
        invariant reservedMap == BuildIndex(all[..i])
        invariant latestReservation == old(latestReservation) && userReservations == old(userReservations)
      {
        var r := all[i];
        assert all[..i + 1][..i] == all[..i];
        var start := ParseToDate(StartRaw(r));
        var end := ParseToDate(EndRaw(r));
        if IsReserved(r) && start.At? && end.At? {
          reservedMap := PushSlots(reservedMap, r.roomId, start.instant, end.instant);
        }
        i := i + 1;
      }
      assert all[..|all|] == all;
      reservedTimeSlotsByRoom := reservedMap;
    }
  }
}
