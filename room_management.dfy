/** The admin room-management page: five study rooms, each with a status that
    the admin switches optimistically and rolls back when the server refuses. */
module RoomManagement {
  import opened Wrappers
  import opened Text

  /** The three states a room can be shown in. */
  datatype RoomStatus = Idle | Occupied | Maintenance

  /** The wire name of a status. */
  function StatusName(s: RoomStatus): string {
    match s
    case Idle => "IDLE"
    case Occupied => "OCCUPIED"
    case Maintenance => "MAINTENANCE"
  }

  /** `normalizeStatus`: `String(v ?? '').toUpperCase()` when it is one of the three
      names, else `MAINTENANCE`. */
  function NormalizeStatus(v: Option<string>): (st: RoomStatus)
    ensures StatusName(st) == ToUpperAscii(if v.Some? then v.value else "") || st == Maintenance
    ensures st == Idle <==> ToUpperAscii(if v.Some? then v.value else "") == "IDLE"
    ensures st == Occupied <==> ToUpperAscii(if v.Some? then v.value else "") == "OCCUPIED"
    ensures st == Maintenance <==> ToUpperAscii(if v.Some? then v.value else "") !in {"IDLE", "OCCUPIED"}
  {
    var s := ToUpperAscii(if v.Some? then v.value else "");
    if s == "IDLE" then Idle
    else if s == "OCCUPIED" then Occupied
    else Maintenance
  }

  /** A name normalises to its own status. */
  lemma {:induction false} NormalizeStatusName(st: RoomStatus)
    ensures NormalizeStatus(Some(StatusName(st))) == st
  {
    NameUpper(st);
    var n := StatusName(st);
    match st
    case Idle =>
    case Occupied => assert n[0] != "IDLE"[0];
    case Maintenance => assert n[0] != "IDLE"[0] && n[0] != "OCCUPIED"[0];
  }

  /** The wire names are upper case already. */
  lemma NameUpper(st: RoomStatus)
    ensures ToUpperAscii(StatusName(st)) == StatusName(st)
  {
    match st
    case Idle => UpperFixed("IDLE");
    case Occupied => UpperFixed("OCCUPIED");
    case Maintenance => UpperFixed("MAINTENANCE");
  }

  /** The test ignores case: upper-casing first changes nothing. */
  lemma {:induction false} NormalizeStatusIgnoresCase(s: string)
    ensures NormalizeStatus(Some(ToUpperAscii(s))) == NormalizeStatus(Some(s))
  {
    UpperIdempotent(s);
  }

  /** Anything whose upper-cased text is not one of the three names, the missing
      value included, is `MAINTENANCE`. */
  lemma {:induction false} NormalizeStatusDefault(v: Option<string>)
    requires forall st: RoomStatus :: StatusName(st) != ToUpperAscii(if v.Some? then v.value else "")
    ensures NormalizeStatus(v) == Maintenance
  {
    assert StatusName(Idle) != ToUpperAscii(if v.Some? then v.value else "");
    assert StatusName(Occupied) != ToUpperAscii(if v.Some? then v.value else "");
  }

  /** `ROOM_IDS`. */
  const RoomIds: seq<int> := [1, 2, 3, 4, 5]

  /** The same ids as a set. */
  const RoomIdSet: set<int> := {1, 2, 3, 4, 5}

  const DefaultImage := "/static/icons/studyroom_image.png"

  /** One room as the page keeps it. */
  datatype Room = Room(status: RoomStatus, imageUrl: string, name: string)

  /** `스터디룸 ${id}`. */
  function DefaultName(id: int): string {
    "스터디룸 " + IntToString(id)
  }

  /** The record a room starts with, and falls back to when its fetch fails. */
  function DefaultRoom(id: int): Room {
    Room(Idle, DefaultImage, DefaultName(id))
  }

  /** `res?.data?.data || {}`: the fields of one room's answer, each possibly missing. */
  datatype RoomData = RoomData(status: Option<string>, name: Option<string>)

  /** `fetchRoom` with its caller's `catch`: a missing status is `IDLE`, a falsy name
      is the default name, and a failed request gives the default record. */
  function RoomInfo(id: int, response: Fetch<RoomData>): (r: Room)
    ensures response.Failed? ==> r == DefaultRoom(id)
    ensures r.imageUrl == DefaultImage
    ensures response.Fetched? && response.body.status.None? ==> r.status == Idle
    ensures response.Fetched? && response.body.status.Some? ==> r.status == NormalizeStatus(response.body.status)
    ensures response.Fetched? && response.body.name.Some? && response.body.name.value != "" ==>
      r.name == response.body.name.value
    ensures response.Fetched? && (response.body.name.None? || response.body.name.value == "") ==>
      r.name == DefaultName(id)
  {
    match response
    case Failed => DefaultRoom(id)
    case Fetched(d) =>
      Room(
        if d.status.Some? then NormalizeStatus(d.status) else Idle,
        DefaultImage,
        if d.name.Some? && d.name.value != "" then d.name.value else DefaultName(id))
  }

  /** `Promise.all(ROOM_IDS.map(...))`: each room id paired with its record, in
      the order of the ids. */
  function FetchResults(response: int -> Fetch<RoomData>): (r: seq<(int, Room)>)
    ensures |r| == |RoomIds|
    ensures forall j :: 0 <= j < |r| ==> r[j].0 == RoomIds[j] == j + 1 && r[j].1 == RoomInfo(j + 1, response(j + 1))
  {
    seq(|RoomIds|, j requires 0 <= j < |RoomIds| => (RoomIds[j], RoomInfo(RoomIds[j], response(RoomIds[j]))))
  }

  /** `for (const [id, info] of results) next[id] = info` on a copy of `prev`, for
      results with distinct ids: each id gets its record, every other key keeps its
      own. */
  method MergeResults(prev: map<int, Room>, results: seq<(int, Room)>) returns (next: map<int, Room>)
    requires forall j, k :: 0 <= j < k < |results| ==> results[j].0 != results[k].0
    ensures next.Keys == prev.Keys + set j | 0 <= j < |results| :: results[j].0
    ensures forall j :: 0 <= j < |results| ==> next[results[j].0] == results[j].1
    ensures forall id :: id in prev && (forall j :: 0 <= j < |results| ==> results[j].0 != id) ==> next[id] == prev[id]
  {
    next := prev;
    var i := 0;
    while i < |results|
      invariant 0 <= i <= |results|
      invariant next.Keys == prev.Keys + set j | 0 <= j < i :: results[j].0
      invariant forall j :: 0 <= j < i ==> next[results[j].0] == results[j].1
      invariant forall id :: id in prev && (forall j :: 0 <= j < i ==> results[j].0 != id) ==> next[id] == prev[id]
    {
      next := next[results[i].0 := results[i].1];
      i := i + 1;
    }
  }

  /** The five fetched records merged into `prev`: every room id gets its record
      and every other key keeps its own. */
  method MergeFetched(prev: map<int, Room>, response: int -> Fetch<RoomData>) returns (next: map<int, Room>)
    ensures next.Keys == prev.Keys + RoomIdSet
    ensures forall i :: 0 <= i < |RoomIds| ==> next[RoomIds[i]] == RoomInfo(RoomIds[i], response(RoomIds[i]))
    ensures forall id :: id in prev && id !in RoomIds ==> next[id] == prev[id]
  {
    var results := FetchResults(response);
    next := MergeResults(prev, results);
    assert (set j | 0 <= j < |results| :: results[j].0) == RoomIdSet by {
      assert results[0].0 == 1 && results[1].0 == 2 && results[2].0 == 3;
      assert results[3].0 == 4 && results[4].0 == 5;
    }
    forall id | id in prev && id !in RoomIds ensures next[id] == prev[id] {
      forall j | 0 <= j < |results| ensures results[j].0 != id {
        assert results[j].0 == RoomIds[j] && RoomIds[j] in RoomIds;
      }
    }
  }

  class Page {
    var rooms: map<int, Room>
    var loading: bool
    var savingIds: set<int>

    /** Every room of the page is in the map. */
    predicate Valid()
      reads this
    {
      RoomIdSet <= rooms.Keys
    }

    /** The initial state: the five rooms, each idle with its default name. */
    constructor()
      ensures rooms.Keys == RoomIdSet
      ensures forall id :: id in rooms ==> rooms[id] == DefaultRoom(id) && rooms[id].status == Idle
      ensures loading && savingIds == {}
      ensures Valid()
    {
      rooms := map[1 := DefaultRoom(1), 2 := DefaultRoom(2), 3 := DefaultRoom(3),
                   4 := DefaultRoom(4), 5 := DefaultRoom(5)];
      loading := true;
      savingIds := {};
    }

    /** `fetchAll`: every room is fetched, a failed one falls back to its default,
        and all five results are merged into the existing map, leaving any other
        entry alone. Loading ends. */
    method FetchAll(response: int -> Fetch<RoomData>)
      modifies this
      ensures rooms.Keys == old(rooms).Keys + RoomIdSet
      ensures forall i :: 0 <= i < |RoomIds| ==> rooms[RoomIds[i]] == RoomInfo(RoomIds[i], response(RoomIds[i]))
      ensures forall id :: id in old(rooms) && id !in RoomIds ==> rooms[id] == old(rooms)[id]
      ensures !loading && savingIds == old(savingIds)
      ensures Valid()
    {
      rooms := MergeFetched(rooms, response);
      loading := false;
    }

    /** The first half of `handleStatusChange`, up to the request. Nothing happens
        when the room already has the status or the confirm is declined. Otherwise
        the room is marked as saving, its previous record is returned for a
        rollback, and only its status is switched. */
    method BeginStatusChange(roomId: int, newStatus: RoomStatus, confirmed: bool)
      returns (started: bool, previous: Room)
      requires roomId in rooms
      modifies this
      ensures started <==> old(rooms)[roomId].status != newStatus && confirmed
      ensures previous == old(rooms)[roomId]
      ensures !started ==> rooms == old(rooms) && savingIds == old(savingIds)
      ensures started ==>
        rooms == old(rooms)[roomId := old(rooms)[roomId].(status := newStatus)] &&
        savingIds == old(savingIds) + {roomId}
      ensures loading == old(loading)
      ensures old(Valid()) ==> Valid()
    {
      previous := rooms[roomId];
      if previous.status == newStatus || !confirmed {
        return false, previous;
      }
      savingIds := savingIds + {roomId};
      rooms := rooms[roomId := previous.(status := newStatus)];
      started := true;
    }

    /** The second half: a refused request puts back exactly the previous record,
        and in the `finally` block the room stops saving on both paths. */
    method FinishStatusChange(roomId: int, previous: Room, ok: bool)
      modifies this
      ensures rooms == if ok then old(rooms) else old(rooms)[roomId := previous]
      ensures savingIds == old(savingIds) - {roomId}
      ensures loading == old(loading)
      ensures old(Valid()) ==> Valid()
    {
      if !ok {
        rooms := rooms[roomId := previous];
      }
      savingIds := savingIds - {roomId};
    }

    /** `handleStatusChange` as one step: an accepted change switches the status of
        the one room and nothing else, a refused one leaves every room as it was,
        and the room is not saving afterwards. */
    method ChangeStatus(roomId: int, newStatus: RoomStatus, confirmed: bool, ok: bool)
      returns (started: bool)
      requires roomId in rooms
      modifies this
      ensures started <==> old(rooms)[roomId].status != newStatus && confirmed
      ensures !started ==> rooms == old(rooms) && savingIds == old(savingIds)
      ensures started ==> savingIds == old(savingIds) - {roomId}
      ensures started && ok ==> rooms == old(rooms)[roomId := old(rooms)[roomId].(status := newStatus)]
      ensures started && !ok ==> rooms == old(rooms)
      ensures rooms.Keys == old(rooms).Keys && loading == old(loading)
    {
      var previous;
      started, previous := BeginStatusChange(roomId, newStatus, confirmed);
      if started {
        FinishStatusChange(roomId, previous, ok);
      }
    }
  }

  /** The optimistic record differs from the old one in its status alone, and after
      an accepted change the room shows the requested status. */
  lemma OptimisticTouchesOnlyStatus(rooms: map<int, Room>, roomId: int, newStatus: RoomStatus, other: int)
    requires roomId in rooms && other in rooms && other != roomId
    ensures rooms[roomId := rooms[roomId].(status := newStatus)][other] == rooms[other]
    ensures rooms[roomId := rooms[roomId].(status := newStatus)][roomId].status == newStatus
    ensures rooms[roomId := rooms[roomId].(status := newStatus)][roomId].name == rooms[roomId].name
    ensures rooms[roomId := rooms[roomId].(status := newStatus)][roomId := rooms[roomId]] == rooms
  {
  }
}
