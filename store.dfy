/** The records the booking services read and write, the in-memory stand-in for
    the five tables they use, and the small helpers the services share:
    `isSlotReserved`, `locationHasTable`, `tableHasCapacity` and
    `getSlotStatusForNow`. */
module Store {
  import opened Text
  import opened Slots
  import opened Keys
  import opened Notes

  /** The status strings "Reserved", "In Progress" and "Cancelled"; the services
      compare them ignoring case and write no others. */
  datatype Status = Reserved | InProgress | Cancelled

  /** A reservation record. Its date, location, table and slot are the parts of
      its key: every writer sets them from the key it stores the record under. */
  datatype Reservation = Reservation(
    userId: string,
    status: Status,
    guests: int,
    preOrder: seq<string>,
    feedbackId: string,
    bookedAt: int,
    waiterId: string,
    bookedBy: string)

  /** A waiter record, stored under the waiter's e-mail (its `emailId`, the
      table's partition key, so the record's own id is the key it is found by). */
  datatype Waiter = Waiter(locationId: string, reservationIds: seq<Key>)

  datatype Location = Location(address: string, tables: seq<string>, listOfWaiters: seq<string>)

  /** A user record, stored under the user's e-mail. */
  datatype User = User(firstName: string, lastName: string, password: string, role: string)

  datatype State = State(
    reservations: map<Key, Reservation>,
    waiters: map<string, Waiter>,
    locations: map<string, Location>,
    capacities: map<string, int>,
    users: map<string, User>)

  /** Today's date as a day number and the time of day in nanoseconds. */
  datatype Clock = Clock(today: int, now: int)

  /** A date text after `LocalDate.parse`: the day it names, or a parse failure
      (remembering whether the text was blank). */
  datatype DateIn = Parsed(day: int) | Malformed(blank: bool)

  /** A number text after `Integer.parseInt`. */
  datatype IntIn = Num(n: int) | NotNumber

  /** What a service returns: a status code with a message (its text is
      `Wording(note)`), a status code with a body, or an exception that escapes
      the service. */
  datatype Reply<T> = Message(code: int, note: Note) | Body(code: int, value: T) | Thrown(exception: string)

  /** The in-memory tables: reservations by key, waiters by e-mail, locations by
      id, table capacities by table id and users by e-mail. */
  class Tables {
    var reservations: map<Key, Reservation>
    var waiters: map<string, Waiter>
    var locations: map<string, Location>
    var capacities: map<string, int>
    var users: map<string, User>

    constructor (st: State)
      ensures Snapshot() == st
    {
      reservations := st.reservations;
      waiters := st.waiters;
      locations := st.locations;
      capacities := st.capacities;
      users := st.users;
    }

    function Snapshot(): State
      reads this
    {
      State(reservations, waiters, locations, capacities, users)
    }

    /** `putItem` / `updateItem` on the reservation table. */
    method PutReservation(k: Key, r: Reservation)
      modifies this
      ensures Snapshot() == old(Snapshot()).(reservations := old(reservations)[k := r])
    {
      reservations := reservations[k := r];
    }

    /** `deleteItem` on the reservation table. */
    method DeleteReservation(k: Key)
      modifies this
      ensures Snapshot() == old(Snapshot()).(reservations := old(reservations) - {k})
    {
      reservations := reservations - {k};
    }

    /** `updateItem` on the waiter table. */
    method PutWaiter(id: string, w: Waiter)
      modifies this
      ensures Snapshot() == old(Snapshot()).(waiters := old(waiters)[id := w])
    {
      waiters := waiters[id := w];
    }
  }

  function PutRecord(st: State, k: Key, r: Reservation): State {
    st.(reservations := st.reservations[k := r])
  }

  function PutWaiterRecord(st: State, id: string, w: Waiter): State {
    st.(waiters := st.waiters[id := w])
  }

  /** `waiter.getReservationIds().add(k)` followed by `updateItem(waiter)`. */
  function AppendId(st: State, w: string, k: Key): State
    requires w in st.waiters
  {
    PutWaiterRecord(st, w, st.waiters[w].(reservationIds := st.waiters[w].reservationIds + [k]))
  }

  /** The outcome of the checks that precede a service's write loop: a reply
      that ends the call, or the run of slots first..last to write. */
  datatype Check<R, J> = Reject(reply: R) | Proceed(job: J, first: int, last: int)

  /** A rewrite loop (update or postpone) either stops with a reply and the
      tables as they are by then, or writes every slot and hands on the new keys. */
  datatype Rewrite = Stopped(reply: Reply<()>, st: State) | Rewritten(st: State, added: seq<Key>)

  /** Locations, capacities and users are as they were. */
  predicate SameSetup(st: State, st': State) {
    st'.locations == st.locations && st'.capacities == st.capacities && st'.users == st.users
  }

  /** Every waiter is still there, at the same location, with its list only
      extended at the end. */
  predicate ListsGrown(st: State, st': State) {
    st'.waiters.Keys == st.waiters.Keys &&
    forall w :: w in st.waiters ==>
      st'.waiters[w].locationId == st.waiters[w].locationId &&
      st.waiters[w].reservationIds <= st'.waiters[w].reservationIds
  }

  lemma ListsGrownTrans(st: State, st1: State, st2: State)
    requires ListsGrown(st, st1) && ListsGrown(st1, st2)
    ensures ListsGrown(st, st2)
  {
    forall w | w in st.waiters
      ensures st.waiters[w].reservationIds <= st2.waiters[w].reservationIds
    {
      var a, b, c := st.waiters[w].reservationIds, st1.waiters[w].reservationIds, st2.waiters[w].reservationIds;
      assert a == b[..|a|] && b == c[..|b|];
      assert c[..|b|][..|a|] == c[..|a|];
    }
  }

  /** Appending to one waiter's list grows the lists. */
  lemma AppendIdGrows(st: State, w: string, k: Key)
    requires w in st.waiters
    ensures ListsGrown(st, AppendId(st, w, k)) && SameSetup(st, AppendId(st, w, k))
  {
  }

  /** The last key of a list is still listed once the list has grown. */
  lemma AppendedIsListed(a: seq<Key>, b: seq<Key>, k: Key)
    requires |a| > 0 && a[|a| - 1] == k && a <= b
    ensures k in b
  {
    assert b[|a| - 1] == k;
  }

  /** `isSlotReserved`: the customer paths block only on a "Reserved" record. */
  predicate IsSlotReserved(st: State, k: Key) {
    k in st.reservations && st.reservations[k].status == Reserved
  }

  /** The waiter booking and the availability query also block on "In Progress". */
  predicate IsSlotActive(st: State, k: Key) {
    k in st.reservations && st.reservations[k].status != Cancelled
  }

  predicate LocationHasTable(st: State, locationId: string, tableId: string) {
    locationId in st.locations && tableId in st.locations[locationId].tables
  }

  /** `getSlotStatusForNow`: "In Progress" while the current time lies within
      the slot on its own date, "Reserved" otherwise, also for an unknown slot. */
  function SlotStatusForNow(slot: int, date: int, clock: Clock): (s: Status)
    ensures s != Cancelled
    ensures s == InProgress <==>
      date == clock.today && IsSlot(slot) && StartNanos(slot) <= clock.now <= EndNanos(slot)
  {
    if date != clock.today then Reserved
    else if !IsSlot(slot) then Reserved
    else if !(clock.now < StartNanos(slot)) && !(clock.now > EndNanos(slot)) then InProgress
    else Reserved
  }

  /** A booking made strictly before its slot starts, as the customer path
      demands, is always recorded as "Reserved". */
  lemma BookedAheadIsReserved(slot: int, date: int, clock: Clock)
    requires IsSlot(slot)
    requires date > clock.today || (date == clock.today && clock.now < StartNanos(slot))
    ensures SlotStatusForNow(slot, date, clock) == Reserved
  {
  }

  /** Every record that still holds a table is listed by the waiter it names:
      the link between records and waiter lists that the services maintain. */
  predicate Synced(st: State) {
    forall k :: k in st.reservations && st.reservations[k].status != Cancelled ==>
      st.reservations[k].waiterId in st.waiters &&
      k in st.waiters[st.reservations[k].waiterId].reservationIds
  }
}
