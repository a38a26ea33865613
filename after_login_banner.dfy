/** The signed-in home banner: the user's upcoming bookings, each with a cancel
    button whose confirmation modal is open for one reservation id at a time. */
module AfterLoginBanner {
  import opened Wrappers
  import opened Clock
  import opened Seqs
  import opened Reservations
  import opened ReservationStore

  /** `openReservationId`: `null`, or the id of the row whose modal is open (a row
      without an id contributes `undefined`, which is `None` here). */
  datatype ModalState = Closed | OpenFor(id: Option<int>)

  /** What a cancellation ends in. */
  datatype CancelOutcome = CancelFailed | Cancelled

  /** `isOpen={openReservationId === r.id}`. */
  predicate IsOpen(m: ModalState, r: Reservation) {
    m == OpenFor(r.id)
  }

  /** Every open modal belongs to a row with the selected id, so among rows with
      distinct ids at most one modal is open, and none when the state is `null`. */
  lemma {:induction false} AtMostOneOpen(m: ModalState, rows: seq<Reservation>, i: int, j: int)
    requires forall a, b :: 0 <= a < b < |rows| ==> rows[a].id != rows[b].id
    requires 0 <= i < |rows| && 0 <= j < |rows|
    requires IsOpen(m, rows[i]) && IsOpen(m, rows[j])
    ensures i == j
    ensures m != Closed
  {
  }

  class Banner {
    var openReservationId: ModalState

    constructor()
      ensures openReservationId == Closed
    {
      openReservationId := Closed;
    }

    /** A row's cancel button: its modal becomes the open one. */
    method OpenModal(r: Reservation)
      modifies this
      ensures IsOpen(openReservationId, r)
    {
      openReservationId := OpenFor(r.id);
    }

    /** The modal's close action. */
    method CloseModal()
      modifies this
      ensures openReservationId == Closed
    {
      openReservationId := Closed;
    }

    /** The banner's own `fetchAllUserReservations`: no request without credentials;
        the upcoming list of the response, earliest start first, goes to the store;
        a failure only logs and leaves the list as it was. */
    method FetchUpcoming(store: Store, signedIn: bool, response: Fetch<seq<Reservation>>, now: Instant)
      modifies store
      ensures store.userReservations ==
        if signedIn && response.Fetched? then Upcoming(response.body, now) else old(store.userReservations)
      ensures store.latestReservation == old(store.latestReservation)
      ensures store.reservedTimeSlotsByRoom == old(store.reservedTimeSlotsByRoom)
    {
      if !signedIn {
        return;
      }
      if response.Fetched? {
        store.SetUserReservations(Upcoming(response.body, now));
      }
    }

    /** `cancelReservation`: after the cancel request succeeds the modal closes, the
        user's list is fetched again and then the store's index is rebuilt; a
        failed request leaves everything as it was, the modal included. */
    method Cancel(store: Store, signedIn: bool, cancelOk: bool, now: Instant,
                  mine: Fetch<seq<Reservation>>, all: Fetch<seq<Reservation>>)
      returns (outcome: CancelOutcome)
      modifies this, store
      ensures outcome == Cancelled <==> cancelOk
      ensures !cancelOk ==>
        openReservationId == old(openReservationId) &&
        store.userReservations == old(store.userReservations) &&
        store.reservedTimeSlotsByRoom == old(store.reservedTimeSlotsByRoom)
      ensures cancelOk ==>
        openReservationId == Closed &&
        store.userReservations ==
          (if signedIn && mine.Fetched? then Upcoming(mine.body, now) else old(store.userReservations)) &&
        store.reservedTimeSlotsByRoom == (if all.Fetched? then BuildIndex(all.body) else map[])
      ensures store.latestReservation == old(store.latestReservation)
    {
      if !cancelOk {
        return CancelFailed;
      }
      openReservationId := Closed;
      FetchUpcoming(store, signedIn, mine, now);
      store.FetchAllReservedTimes(all);
      outcome := Cancelled;
    }
  }
}
