/** ReservationService: which tables and slots are still free, a customer's
    reservation history, and a customer's cancellation with its 30-minute
    cutoff. */
module Reservations {
  import opened Text
  import opened Slots
  import opened Keys
  import opened Store
  import opened Notes

  // ---------------------------------------------------------------------------
  // Availability
  // ---------------------------------------------------------------------------

  function AllSlots(): set<int> {
    {1, 2, 3, 4, 5, 6, 7}
  }

  /** The slots that have ended by `now` (compared at full precision). */
  function EndedSlots(now: int): set<int> {
    set i | 1 <= i <= 7 && EndNanos(i) < now
  }

  /** The slots of a table still open on a day: no "Reserved" or "In Progress"
      record at the slot's key, and on today's date not already ended. */
  function FreeSlots(st: State, day: int, locationId: string, tableId: string, clock: Clock): set<int> {
    set i | 1 <= i <= 7 && !IsSlotActive(st, Key(day, locationId, tableId, i)) &&
                           !(day == clock.today && EndNanos(i) < clock.now)
  }

  /** What `getAvailableTableWithSlots` computes: for each table of the
      location with at least `capacity` seats, its free slots. It throws
      (None) for a missing location or a table without a capacity record. */
  function Availability(st: State, day: int, locationId: string, capacity: int, clock: Clock)
    : Option<map<string, set<int>>>
  {
    if locationId !in st.locations then None
    else
      var tables := st.locations[locationId].tables;
      if exists t :: t in tables && t !in st.capacities then None
      else Some(map t | t in tables && t in st.capacities && st.capacities[t] >= capacity
                  :: FreeSlots(st, day, locationId, t, clock))
  }

  /** The reservation ids the first loop builds: seven per table. */
  ghost predicate RunIds(ids: seq<Key>, day: int, locationId: string, tables: set<string>) {
    forall k :: k in ids <==> k.date == day && k.locationId == locationId && k.tableId in tables && IsSlot(k.slot)
  }

  method GetAvailableTableWithSlots(db: Tables, day: int, locationId: string, capacity: int, clock: Clock)
    returns (r: Option<map<string, set<int>>>)
    ensures r == Availability(db.Snapshot(), day, locationId, capacity, clock)
  {
    if locationId !in db.locations {
      return None;
    }
    var tables := db.locations[locationId].tables;
    var initial, ids := InitialAvailability(tables, day, locationId);
    var filled := FilledSlots(db, ids);
    var unfilled := RemoveFilled(initial, filled);
    var availability := unfilled;
    if day == clock.today {
      availability := RemoveEnded(unfilled, clock.now);
    }
    PhasesGiveFreeSlots(db.Snapshot(), day, locationId, clock, (set u | u in tables), ids, filled, initial, unfilled, availability);
    r := FilterByCapacity(db, availability, capacity);
    FilterGivesAvailability(db.Snapshot(), day, locationId, capacity, clock, availability, r);
  }

  /** After the removal loops every listed table holds exactly its free slots. */
  lemma PhasesGiveFreeSlots(st: State, day: int, locationId: string, clock: Clock, tables: set<string>,
                            ids: seq<Key>, filled: seq<Key>,
                            initial: map<string, set<int>>, unfilled: map<string, set<int>>,
                            availability: map<string, set<int>>)
    requires RunIds(ids, day, locationId, tables)
    requires forall k :: k in filled <==> k in ids && IsSlotActive(st, k)
    requires initial.Keys == tables && forall t :: t in initial ==> initial[t] == AllSlots()
    requires unfilled.Keys == initial.Keys
    requires forall t :: t in unfilled ==>
      forall i :: i in unfilled[t] <==> i in initial[t] && !exists k :: k in filled && k.tableId == t && k.slot == i
    requires availability.Keys == unfilled.Keys
    requires day == clock.today ==> forall t :: t in availability ==> availability[t] == unfilled[t] - EndedSlots(clock.now)
    requires day != clock.today ==> availability == unfilled
    ensures availability.Keys == tables
    ensures forall t :: t in availability ==> availability[t] == FreeSlots(st, day, locationId, t, clock)
  {
    forall t | t in availability
      ensures availability[t] == FreeSlots(st, day, locationId, t, clock)
    {
      forall i
        ensures i in availability[t] <==> i in FreeSlots(st, day, locationId, t, clock)
      {
        FilledAt(st, ids, filled, day, locationId, tables, t, i);
        SlotAfterPhases(st, day, locationId, t, clock, i, unfilled[t], availability[t],
                        exists k :: k in filled && k.tableId == t && k.slot == i);
      }
    }
  }

  /** One slot of one table through the removal loops. */
  lemma SlotAfterPhases(st: State, day: int, locationId: string, t: string, clock: Clock, i: int,
                        unfilled: set<int>, available: set<int>, filledAt: bool)
    requires filledAt <==> IsSlot(i) && IsSlotActive(st, Key(day, locationId, t, i))
    requires i in unfilled <==> i in AllSlots() && !filledAt
    requires day == clock.today ==> available == unfilled - EndedSlots(clock.now)
    requires day != clock.today ==> available == unfilled
    ensures i in available <==> i in FreeSlots(st, day, locationId, t, clock)
  {
  }

  /** A slot of a listed table was removed as filled exactly when its record
      is active. */
  lemma FilledAt(st: State, ids: seq<Key>, filled: seq<Key>, day: int, locationId: string, tables: set<string>,
                 t: string, i: int)
    requires RunIds(ids, day, locationId, tables)
    requires forall k :: k in filled <==> k in ids && IsSlotActive(st, k)
    requires t in tables
    ensures (exists k :: k in filled && k.tableId == t && k.slot == i) <==>
      IsSlot(i) && IsSlotActive(st, Key(day, locationId, t, i))
  {
    if IsSlot(i) && IsSlotActive(st, Key(day, locationId, t, i)) {
      assert Key(day, locationId, t, i) in filled;
    }
  }

  /** The capacity filter applied to every table's free slots is `Availability`. */
  lemma FilterGivesAvailability(st: State, day: int, locationId: string, capacity: int, clock: Clock,
                                a: map<string, set<int>>, r: Option<map<string, set<int>>>)
    requires locationId in st.locations
    requires a.Keys == set t | t in st.locations[locationId].tables
    requires forall t :: t in a ==> a[t] == FreeSlots(st, day, locationId, t, clock)
    requires r.None? <==> exists t :: t in a && t !in st.capacities
    requires r.Some? ==>
      r.value == map t | t in a && t in st.capacities && st.capacities[t] >= capacity :: a[t]
    ensures r == Availability(st, day, locationId, capacity, clock)
  {
    var tables := st.locations[locationId].tables;
    if r.None? {
      var t :| t in a && t !in st.capacities;
      assert t in tables;
    } else {
      assert !exists t :: t in tables && t !in st.capacities by {
        forall t | t in tables
          ensures t in st.capacities
        {
          assert t in a;
        }
      }
      assert Availability(st, day, locationId, capacity, clock).Some?;
      var m := Availability(st, day, locationId, capacity, clock).value;
      forall t
        ensures t in r.value <==> t in m
      {
        assert t in a <==> t in tables;
      }
      assert r.value.Keys == m.Keys;
      forall t | t in m
        ensures r.value[t] == m[t]
      {
        assert t in a;
      }
      assert r.value == m;
    }
  }

  /** The first loop: every table starts with all seven slots, and its seven
      keys are queued for lookup. */
  method InitialAvailability(tables: seq<string>, day: int, locationId: string)
    returns (availability: map<string, set<int>>, ids: seq<Key>)
    ensures availability.Keys == set t | t in tables
    ensures forall t :: t in availability ==> availability[t] == AllSlots()
    ensures RunIds(ids, day, locationId, set t | t in tables)
  {
    availability := map[];
    ids := [];
    var p := 0;
    while p < |tables|
      invariant 0 <= p <= |tables|
      invariant availability.Keys == set t | t in tables[..p]
      invariant forall t :: t in availability ==> availability[t] == AllSlots()
      invariant RunIds(ids, day, locationId, set t | t in tables[..p])
    {
      var t := tables[p];
      availability := availability[t := AllSlots()];
      var i := 1;
      while i <= 7
        invariant 1 <= i <= 8
        invariant forall k :: k in ids <==>
          (k.date == day && k.locationId == locationId && k.tableId in tables[..p] && IsSlot(k.slot)) ||
          (k == Key(day, locationId, t, k.slot) && 1 <= k.slot < i)
      {
        ids := ids + [Key(day, locationId, t, i)];
        i := i + 1;
      }
      assert tables[..p + 1] == tables[..p] + [t];
      p := p + 1;
    }
    assert tables[..|tables|] == tables;
  }

  /** The second loop: the queued keys whose record is "Reserved" or
      "In Progress". */
  method FilledSlots(db: Tables, ids: seq<Key>) returns (filled: seq<Key>)
    ensures forall k :: k in filled <==> k in ids && IsSlotActive(db.Snapshot(), k)
  {
    filled := [];
    var q := 0;
    while q < |ids|
      invariant 0 <= q <= |ids|
      invariant forall k :: k in filled <==> k in ids[..q] && IsSlotActive(db.Snapshot(), k)
    {
      var k := ids[q];
      if k in db.reservations && db.reservations[k].status != Cancelled {
        filled := filled + [k];
      }
      assert ids[..q + 1] == ids[..q] + [k];
      q := q + 1;
    }
    assert ids[..|ids|] == ids;
  }

  /** `availabilityMap.get(tableId).remove(slot)` for every filled key. */
  method RemoveFilled(availability: map<string, set<int>>, filled: seq<Key>) returns (a: map<string, set<int>>)
    requires forall k :: k in filled ==> k.tableId in availability
    ensures a.Keys == availability.Keys
    ensures forall t :: t in a ==>
      forall i :: i in a[t] <==> i in availability[t] && !exists k :: k in filled && k.tableId == t && k.slot == i
  {
    a := availability;
    var r := 0;
    while r < |filled|
      invariant 0 <= r <= |filled|
      invariant a.Keys == availability.Keys
      invariant forall t :: t in a ==>
        forall i :: i in a[t] <==> i in availability[t] && !exists k :: k in filled[..r] && k.tableId == t && k.slot == i
    {
      var k := filled[r];
      a := a[k.tableId := a[k.tableId] - {k.slot}];
      assert filled[..r + 1] == filled[..r] + [k];
      r := r + 1;
    }
    assert filled[..|filled|] == filled;
  }

  /** The today-only loop: every slot that has ended is removed from every table. */
  method RemoveEnded(availability: map<string, set<int>>, now: int) returns (a: map<string, set<int>>)
    ensures a.Keys == availability.Keys
    ensures forall t :: t in a ==> a[t] == availability[t] - EndedSlots(now)
  {
    a := availability;
    var todo := availability.Keys;
    while todo != {}
      invariant todo <= availability.Keys && a.Keys == availability.Keys
      invariant forall t :: t in a && t !in todo ==> a[t] == availability[t] - EndedSlots(now)
      invariant forall t :: t in todo ==> a[t] == availability[t]
      decreases |todo|
    {
      var t :| t in todo;
      var slots := a[t];
      var i := 1;
      while i <= 7
        invariant 1 <= i <= 8
        invariant slots == availability[t] - set j | 1 <= j < i && EndNanos(j) < now
      {
        if EndNanos(i) < now {
          slots := slots - {i};
        }
        i := i + 1;
      }
      a := a[t := slots];
      todo := todo - {t};
    }
  }

  /** The last loop: the tables with enough seats. Reading the capacity of a
      table that has no record throws. */
  method FilterByCapacity(db: Tables, availability: map<string, set<int>>, capacity: int)
    returns (r: Option<map<string, set<int>>>)
    ensures r.None? <==> exists t :: t in availability && t !in db.capacities
    ensures r.Some? ==>
      r.value == map t | t in availability && t in db.capacities && db.capacities[t] >= capacity :: availability[t]
  {
    var filtered: map<string, set<int>> := map[];
    var todo := availability.Keys;
    while todo != {}
      invariant todo <= availability.Keys
      invariant forall t :: t in availability && t !in todo ==> t in db.capacities
      invariant filtered == map t | t in availability && t !in todo && db.capacities[t] >= capacity :: availability[t]
      decreases |todo|
    {
      var t :| t in todo;
      if t !in db.capacities {
        return None;
      }
      if db.capacities[t] >= capacity {
        filtered := filtered[t := availability[t]];
      }
      todo := todo - {t};
    }
    return Some(filtered);
  }

  /** AvailableTableResponse: the table, its free slots as "start-end" labels
      and its capacity. */
  datatype AvailableTable = AvailableTable(
    locationId: string,
    address: string,
    tableNumber: string,
    availableSlots: set<string>,
    capacity: int)

  /** The response entry for each table `getAvailableTableWithSlots` kept;
      the list the source returns is in the unspecified order of a hash map,
      so the model keys the entries by table. */
  function Responses(st: State, locationId: string, m: map<string, set<int>>): map<string, AvailableTable>
    requires locationId in st.locations
  {
    map t | t in m && t in st.capacities ::
      AvailableTable(locationId, st.locations[locationId].address, t,
                     set i | i in m[t] && IsSlot(i) :: SlotLabel(i), st.capacities[t])
  }

  /** `getAvailableTables`: the checks in the source's order, then the free
      slots of every table with enough seats. */
  function AvailableTablesResult(st: State, locationId: string, date: DateIn, capacity: Option<int>, clock: Clock)
    : Reply<map<string, AvailableTable>>
  {
    if IsBlank(locationId) || date == Malformed(true) then Message(400, DataRequired)
    else if capacity.None? || capacity.value <= 0 then Message(400, InvalidGuestNumber)
    else if date.Malformed? then Message(400, BadDateFormat)
    else if clock.today > date.day then Message(400, TravelToPast)
    else if locationId !in st.locations then Message(404, NoLocationWithId)
    else match Availability(st, date.day, locationId, capacity.value, clock)
      // resTable.getCapacity() on a table without a record
      case None => Thrown("NullPointerException")
      case Some(m) =>
        if m == map[] then Message(404, NoSlotsAvailable)
        else Body(200, Responses(st, locationId, m))
  }

  method GetAvailableTables(db: Tables, locationId: string, date: DateIn, capacity: Option<int>, clock: Clock)
    returns (reply: Reply<map<string, AvailableTable>>)
    ensures reply == AvailableTablesResult(db.Snapshot(), locationId, date, capacity, clock)
  {
    if IsBlank(locationId) || date == Malformed(true) {
      return Message(400, DataRequired);
    }
    if capacity.None? || capacity.value <= 0 {
      return Message(400, InvalidGuestNumber);
    }
    if date.Malformed? {
      return Message(400, BadDateFormat);
    }
    if clock.today > date.day {
      return Message(400, TravelToPast);
    }
    if locationId !in db.locations {
      return Message(404, NoLocationWithId);
    }
    var available := GetAvailableTableWithSlots(db, date.day, locationId, capacity.value, clock);
    if available.None? {
      return Thrown("NullPointerException");
    }
    if available.value == map[] {
      return Message(404, NoSlotsAvailable);
    }
    return Body(200, Responses(db.Snapshot(), locationId, available.value));
  }

  // ---------------------------------------------------------------------------
  // What availability offers
  // ---------------------------------------------------------------------------

  /** The tables offered are exactly the location's tables with enough seats,
      and a table's offered slots are exactly those with no active record that
      have not ended today. */
  lemma AvailabilityExact(st: State, day: int, locationId: string, capacity: int, clock: Clock)
    requires Availability(st, day, locationId, capacity, clock).Some?
    ensures var m := Availability(st, day, locationId, capacity, clock).value;
      (forall t :: t in m <==>
        t in st.locations[locationId].tables && t in st.capacities && st.capacities[t] >= capacity) &&
      forall t, i :: t in m ==>
        (i in m[t] <==>
          IsSlot(i) && !IsSlotActive(st, Key(day, locationId, t, i)) && !(day == clock.today && EndNanos(i) < clock.now))
  {
  }

  /** A slot holding a "Reserved" or "In Progress" record is never offered;
      a "Cancelled" record does not block it. */
  lemma BookedSlotNotOffered(st: State, day: int, locationId: string, capacity: int, clock: Clock, t: string, i: int)
    requires Availability(st, day, locationId, capacity, clock).Some?
    requires t in Availability(st, day, locationId, capacity, clock).value
    ensures var m := Availability(st, day, locationId, capacity, clock).value;
      (IsSlotActive(st, Key(day, locationId, t, i)) ==> i !in m[t]) &&
      ((IsSlot(i) && Key(day, locationId, t, i) in st.reservations &&
        st.reservations[Key(day, locationId, t, i)].status == Cancelled &&
        !(day == clock.today && EndNanos(i) < clock.now)) ==> i in m[t])
  {
  }

  /** A 200 answer offers at least one table, each at its capacity and with
      the labels of its free slots. */
  lemma AvailableTablesBody(st: State, locationId: string, date: DateIn, capacity: Option<int>, clock: Clock)
    ensures var reply := AvailableTablesResult(st, locationId, date, capacity, clock);
      reply.Body? ==>
        reply.code == 200 && reply.value != map[] &&
        date.Parsed? && capacity.Some? && capacity.value > 0 && clock.today <= date.day &&
        locationId in st.locations &&
        forall t :: t in reply.value ==>
          t in st.locations[locationId].tables && t in st.capacities &&
          reply.value[t].capacity == st.capacities[t] >= capacity.value &&
          forall i :: IsSlot(i) ==>
            (SlotLabel(i) in reply.value[t].availableSlots <==>
             !IsSlotActive(st, Key(date.day, locationId, t, i)) &&
             !(date.day == clock.today && EndNanos(i) < clock.now))
  {
    var reply := AvailableTablesResult(st, locationId, date, capacity, clock);
    if reply.Body? {
      var m := Availability(st, date.day, locationId, capacity.value, clock).value;
      AvailabilityExact(st, date.day, locationId, capacity.value, clock);
      assert m.Keys == reply.value.Keys;
      forall t, i | t in reply.value && IsSlot(i)
        ensures SlotLabel(i) in reply.value[t].availableSlots <==> i in m[t]
      {
        if SlotLabel(i) in reply.value[t].availableSlots {
          var j :| j in m[t] && IsSlot(j) && SlotLabel(j) == SlotLabel(i);
          SlotLabelInjective(i, j);
        }
      }
    }
  }

  // ---------------------------------------------------------------------------
  // History
  // ---------------------------------------------------------------------------

  /** ReservationHistoryResponse, with the location's address in place of its id. */
  datatype HistoryEntry = HistoryEntry(
    id: Key,
    status: Status,
    address: string,
    date: int,
    slot: int,
    preOrder: seq<string>,
    guests: int,
    feedbackId: string)

  predicate IsOwnedBy(st: State, email: string, k: Key)
    requires k in st.reservations
  {
    EqualsIgnoreCase(st.reservations[k].userId, email)
  }

  function HistoryEntryOf(st: State, k: Key): HistoryEntry
    requires k in st.reservations && k.locationId in st.locations
  {
    var r := st.reservations[k];
    HistoryEntry(k, r.status, st.locations[k.locationId].address, k.date, k.slot, r.preOrder, r.guests, r.feedbackId)
  }

  /** The records of a user, matched ignoring case. */
  function Own(st: State, email: string): set<Key> {
    set k | k in st.reservations && IsOwnedBy(st, email, k)
  }

  /** `getReservationHistory`: every record of the user, whatever its status,
      keyed by id since the scan's order is unspecified. An address lookup of
      a missing location throws and is caught. */
  function HistoryResult(st: State, email: string): Reply<map<Key, HistoryEntry>> {
    var own := Own(st, email);
    if own == {} then Message(204, NoHistory)
    else if exists k :: k in own && k.locationId !in st.locations then Message(500, HistoryFailed)
    else Body(200, map k | k in own :: HistoryEntryOf(st, k))
  }

  /** The history lists exactly the user's records, and answers 204 exactly
      when there are none. */
  lemma HistoryExact(st: State, email: string)
    ensures var reply := HistoryResult(st, email);
      (reply == Message(204, NoHistory) <==> forall k :: k in st.reservations ==> !IsOwnedBy(st, email, k)) &&
      (reply.Body? ==>
        reply.code == 200 &&
        (forall k :: k in reply.value <==> k in st.reservations && IsOwnedBy(st, email, k)) &&
        forall k :: k in reply.value ==>
          k.locationId in st.locations &&
          reply.value[k].id == k && reply.value[k].status == st.reservations[k].status &&
          reply.value[k].guests == st.reservations[k].guests &&
          reply.value[k].address == st.locations[k.locationId].address)
  {
    var own := Own(st, email);
    if own != {} {
      var k :| k in own;
      assert k in st.reservations && IsOwnedBy(st, email, k);
    } else {
      assert forall k :: k in st.reservations && IsOwnedBy(st, email, k) ==> k in own;
    }
  }

  /** The e-mail is matched ignoring case: asking with its lower-case form
      gives the same answer. */
  lemma HistoryIgnoresCase(st: State, email: string)
    ensures HistoryResult(st, Lower(email)) == HistoryResult(st, email)
  {
    LowerIdempotent(email);
    assert Own(st, Lower(email)) == Own(st, email);
  }

  // ---------------------------------------------------------------------------
  // Cancelling by the customer
  // ---------------------------------------------------------------------------

  /** How long before the slot's start a same-day cancellation must come. */
  const CancelCutoff := 30 * NanosPerMinute

  /** The cancellation itself: the record is marked "Cancelled" and written,
      then its waiter's list loses the id; a missing waiter throws after the
      record has been written. */
  function CancelByCustomer(st: State, id: Key): (Reply<()>, State)
    requires id in st.reservations
  {
    var st1 := PutRecord(st, id, st.reservations[id].(status := Cancelled));
    var w := st.reservations[id].waiterId;
    if w !in st1.waiters then (Thrown("NullPointerException"), st1)
    else
      (Message(200, CancelledByCustomer),
       PutWaiterRecord(st1, w, st1.waiters[w].(reservationIds := RemoveFirst(st1.waiters[w].reservationIds, id))))
  }

  /** `deleteReservationById`. The owner check is case-sensitive here, unlike
      the history's. */
  function DeleteEffect(st: State, id: Key, email: string, clock: Clock): (Reply<()>, State) {
    if id !in st.reservations then (Message(404, NotFoundForId), st)
    else
      var r := st.reservations[id];
      if r.userId != email then (Message(403, NotAuthorizedToDelete), st)
      else if r.status == Cancelled then (Message(408, AlreadyCancelled), st)
      else if clock.today < id.date then CancelByCustomer(st, id)
      else if clock.today > id.date then (Message(400, BadRequest), st)
      // timeMap.get(timeSlot).get(0) for a slot outside the catalog
      else if !IsSlot(id.slot) then (Thrown("NullPointerException"), st)
      else if clock.now < StartNanos(id.slot) - CancelCutoff then CancelByCustomer(st, id)
      else (Message(400, BadRequest), st)
  }

  method DeleteReservationById(db: Tables, id: Key, email: string, clock: Clock) returns (reply: Reply<()>)
    modifies db
    ensures (reply, db.Snapshot()) == DeleteEffect(old(db.Snapshot()), id, email, clock)
  {
    if id !in db.reservations {
      return Message(404, NotFoundForId);
    }
    var reservation := db.reservations[id];
    if reservation.userId != email {
      return Message(403, NotAuthorizedToDelete);
    }
    if reservation.status == Cancelled {
      return Message(408, AlreadyCancelled);
    }
    var inTime := clock.today < id.date;
    if !inTime {
      if clock.today > id.date {
        return Message(400, BadRequest);
      }
      if !IsSlot(id.slot) {
        return Thrown("NullPointerException");
      }
      if !(clock.now < StartNanos(id.slot) - CancelCutoff) {
        return Message(400, BadRequest);
      }
    }
    db.PutReservation(id, reservation.(status := Cancelled));
    if reservation.waiterId !in db.waiters {
      return Thrown("NullPointerException");
    }
    var waiter := db.waiters[reservation.waiterId];
    db.PutWaiter(reservation.waiterId, waiter.(reservationIds := RemoveFirst(waiter.reservationIds, id)));
    return Message(200, CancelledByCustomer);
  }

  /** The time rule: a future date may always be cancelled, a past one never,
      and today only while more than 30 minutes remain before the slot starts. */
  predicate CancellableAt(id: Key, clock: Clock) {
    clock.today < id.date ||
    (clock.today == id.date && IsSlot(id.slot) && clock.now < StartNanos(id.slot) - CancelCutoff)
  }

  /** A 200 comes exactly from the owner of a live reservation within the time
      rule whose waiter exists. */
  lemma DeleteAccepted(st: State, id: Key, email: string, clock: Clock)
    ensures DeleteEffect(st, id, email, clock).0 == Message(200, CancelledByCustomer) <==>
      id in st.reservations && st.reservations[id].userId == email &&
      st.reservations[id].status != Cancelled && CancellableAt(id, clock) &&
      st.reservations[id].waiterId in st.waiters
  {
  }

  /** Every other message leaves the tables as they were. */
  lemma DeleteRefusedWritesNothing(st: State, id: Key, email: string, clock: Clock)
    ensures var (reply, st') := DeleteEffect(st, id, email, clock);
      reply.Message? && reply.code != 200 ==> st' == st
  {
  }

  /** A 200 cancels the record, drops one listing of it from its waiter and
      changes nothing else. */
  lemma DeleteCancels(st: State, id: Key, email: string, clock: Clock)
    ensures var (reply, st') := DeleteEffect(st, id, email, clock);
      reply.Message? && reply.code == 200 ==>
        id in st.reservations && st.reservations[id].waiterId in st.waiters &&
        var w := st.reservations[id].waiterId;
        st'.reservations == st.reservations[id := st.reservations[id].(status := Cancelled)] &&
        st'.waiters == st.waiters[w := st.waiters[w].(reservationIds := RemoveFirst(st.waiters[w].reservationIds, id))] &&
        multiset(st'.waiters[w].reservationIds) == multiset(st.waiters[w].reservationIds) - multiset{id} &&
        SameSetup(st, st')
  {
    var (reply, st') := DeleteEffect(st, id, email, clock);
    if reply.Message? && reply.code == 200 {
      assert (reply, st') == CancelByCustomer(st, id);
      CancelByCustomerEffect(st, id);
    }
  }

  lemma CancelByCustomerEffect(st: State, id: Key)
    requires id in st.reservations
    ensures var (reply, st') := CancelByCustomer(st, id);
      reply.Message? ==>
        st.reservations[id].waiterId in st.waiters &&
        var w := st.reservations[id].waiterId;
        st'.reservations == st.reservations[id := st.reservations[id].(status := Cancelled)] &&
        st'.waiters == st.waiters[w := st.waiters[w].(reservationIds := RemoveFirst(st.waiters[w].reservationIds, id))] &&
        multiset(st'.waiters[w].reservationIds) == multiset(st.waiters[w].reservationIds) - multiset{id} &&
        SameSetup(st, st')
  {
    var w := st.reservations[id].waiterId;
    if w in st.waiters && id in st.waiters[w].reservationIds {
      RemoveFirstCounts(st.waiters[w].reservationIds, id);
    }
  }

  /** Less than 30 minutes before the slot starts, or later, a same-day
      cancellation is refused and changes nothing. */
  lemma DeleteTooLate(st: State, id: Key, email: string, clock: Clock)
    requires id in st.reservations && st.reservations[id].userId == email && st.reservations[id].status != Cancelled
    requires clock.today == id.date && IsSlot(id.slot) && clock.now >= StartNanos(id.slot) - CancelCutoff
    ensures DeleteEffect(st, id, email, clock) == (Message(400, BadRequest), st)
  {
  }

  /** Cancelling twice: the second call answers 408. */
  lemma DeleteTwice(st: State, id: Key, email: string, clock: Clock)
    requires DeleteEffect(st, id, email, clock).0 == Message(200, CancelledByCustomer)
    ensures DeleteEffect(DeleteEffect(st, id, email, clock).1, id, email, clock).0 == Message(408, AlreadyCancelled)
  {
  }

  /** Whatever the outcome, every active record stays listed by its waiter. */
  lemma DeleteSynced(st: State, id: Key, email: string, clock: Clock)
    requires Synced(st)
    ensures Synced(DeleteEffect(st, id, email, clock).1)
  {
    if DeleteEffect(st, id, email, clock).1 != st {
      assert DeleteEffect(st, id, email, clock) == CancelByCustomer(st, id);
      CancelByCustomerSynced(st, id);
    }
  }

  lemma CancelByCustomerSynced(st: State, id: Key)
    requires Synced(st) && id in st.reservations
    ensures Synced(CancelByCustomer(st, id).1)
  {
    var (reply, st') := CancelByCustomer(st, id);
    forall k | k in st'.reservations && st'.reservations[k].status != Cancelled
      ensures st'.reservations[k].waiterId in st'.waiters &&
        k in st'.waiters[st'.reservations[k].waiterId].reservationIds
    {
      assert k != id;
      var w := st.reservations[k].waiterId;
      assert k in st.waiters[w].reservationIds;
      if w == st.reservations[id].waiterId && reply.Message? {
        RemoveFirstKeeps(st.waiters[w].reservationIds, k, id);
      }
    }
  }

  /** A cancelled slot is offered again: after a 200 the slot it held is free
      whenever its table has enough seats and the slot has not ended. */
  lemma DeleteReopensSlot(st: State, id: Key, email: string, clock: Clock, capacity: int)
    requires DeleteEffect(st, id, email, clock).0 == Message(200, CancelledByCustomer)
    requires id.locationId in st.locations
    requires id.tableId in st.locations[id.locationId].tables
    requires forall t :: t in st.locations[id.locationId].tables ==> t in st.capacities
    requires st.capacities[id.tableId] >= capacity
    requires IsSlot(id.slot) && !(id.date == clock.today && EndNanos(id.slot) < clock.now)
    ensures var st' := DeleteEffect(st, id, email, clock).1;
      var m := Availability(st', id.date, id.locationId, capacity, clock);
      m.Some? && id.tableId in m.value && id.slot in m.value[id.tableId]
  {
    var st' := DeleteEffect(st, id, email, clock).1;
    DeleteCancels(st, id, email, clock);
    assert id == Key(id.date, id.locationId, id.tableId, id.slot);
    assert !IsSlotActive(st', id);
  }

  /** The history still lists a reservation the customer cancelled, now
      marked "Cancelled". */
  lemma DeleteKeepsHistory(st: State, id: Key, email: string, clock: Clock)
    requires DeleteEffect(st, id, email, clock).0 == Message(200, CancelledByCustomer)
    requires id.locationId in st.locations
    ensures var h := HistoryResult(DeleteEffect(st, id, email, clock).1, email);
      (h.Body? && id in h.value && h.value[id].status == Cancelled) || h == Message(500, HistoryFailed)
  {
    var st' := DeleteEffect(st, id, email, clock).1;
    DeleteCancels(st, id, email, clock);
    assert IsOwnedBy(st', email, id);
    HistoryExact(st', email);
  }
}
