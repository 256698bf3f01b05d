/** ClientBookingService: a customer books one table for a run of consecutive
    slots, each slot is given to the least busy waiter of the location, and a
    customer rewrites a booking onto another table, guest count or run of slots. */
module ClientBooking {
  import opened Text
  import opened Slots
  import opened Keys
  import opened Store
  import opened Notes

  /** BookingServiceRequest, with the date and the guest count as parsed. */
  datatype BookingRequest = BookingRequest(
    locationId: string,
    tableNumber: string,
    date: DateIn,
    guestsNumber: IntIn,
    timeFrom: string,
    timeTo: string)

  /** One BookingServiceResponse: the key, the stored record and the address
      of the location. */
  datatype Booked = Booked(key: Key, record: Reservation, address: string)


  // ---------------------------------------------------------------------------
  // Waiter load
  // ---------------------------------------------------------------------------

  predicate CountsFor(st: State, k: Key, date: int, slot: int) {
    k in st.reservations && k.date == date && k.slot == slot
  }

  /** `getReservationCountForWaiter`: how many of the ids name a stored
      reservation on that date and slot, whatever its status. */
  function CountFor(st: State, ids: seq<Key>, date: int, slot: int): (n: nat)
    ensures n <= |ids|
  {
    if ids == [] then 0
    else CountFor(st, ids[..|ids| - 1], date, slot) + (if CountsFor(st, ids[|ids| - 1], date, slot) then 1 else 0)
  }

  /** The count of a list is the sum of the counts of its parts. */
  lemma {:induction false} CountForAppend(st: State, a: seq<Key>, b: seq<Key>, date: int, slot: int)
    ensures CountFor(st, a + b, date, slot) == CountFor(st, a, date, slot) + CountFor(st, b, date, slot)
    decreases |b|
  {
    if b == [] {
      assert a + b == a;
    } else {
      assert (a + b)[..|a + b| - 1] == a + b[..|b| - 1];
      CountForAppend(st, a, b[..|b| - 1], date, slot);
    }
  }

  /** The count looks only at which keys are stored, not at their records:
      cancelled reservations still count. */
  lemma {:induction false} CountIgnoresStatus(st1: State, st2: State, ids: seq<Key>, date: int, slot: int)
    requires st1.reservations.Keys == st2.reservations.Keys
    ensures CountFor(st1, ids, date, slot) == CountFor(st2, ids, date, slot)
    decreases |ids|
  {
    if ids != [] {
      CountIgnoresStatus(st1, st2, ids[..|ids| - 1], date, slot);
    }
  }

  method GetReservationCountForWaiter(db: Tables, date: int, slot: int, ids: seq<Key>) returns (count: nat)
    ensures count == CountFor(db.Snapshot(), ids, date, slot)
  {
    count := 0;
    var j := 0;
    while j < |ids|
      invariant 0 <= j <= |ids|
      invariant count == CountFor(db.Snapshot(), ids[..j], date, slot)
    {
      var id := ids[j];
      assert ids[..j + 1][..j] == ids[..j];
      if id in db.reservations && id.date == date && id.slot == slot {
        count := count + 1;
      }
      j := j + 1;
    }
    assert ids[..j] == ids;
  }

  /** The first position holding the smallest value. */
  function FirstMin(cs: seq<nat>): (k: nat)
    requires |cs| > 0
    ensures k < |cs|
    ensures forall j :: 0 <= j < |cs| ==> cs[k] <= cs[j]
    ensures forall j :: 0 <= j < k ==> cs[k] < cs[j]
  {
    if |cs| == 1 then 0
    else
      var m := FirstMin(cs[..|cs| - 1]);
      if cs[|cs| - 1] < cs[m] then |cs| - 1 else m
  }

  /** Extending the scanned prefix by one value moves the first minimum there
      only when that value is strictly smaller. */
  lemma FirstMinStep(cs: seq<nat>, j: nat)
    requires 0 <= j < |cs|
    ensures j == 0 ==> FirstMin(cs[..j + 1]) == 0
    ensures j > 0 ==> FirstMin(cs[..j + 1]) == if cs[j] < cs[FirstMin(cs[..j])] then j else FirstMin(cs[..j])
  {
    assert cs[..j + 1][..j] == cs[..j];
  }

  predicate AllListed(st: State, ids: seq<string>) {
    forall j :: 0 <= j < |ids| ==> ids[j] in st.waiters
  }

  function WaiterCounts(st: State, ids: seq<string>, date: int, slot: int): (cs: seq<nat>)
    requires AllListed(st, ids)
    ensures |cs| == |ids|
    ensures forall j :: 0 <= j < |ids| ==> cs[j] == CountFor(st, st.waiters[ids[j]].reservationIds, date, slot)
  {
    seq(|ids|, j requires 0 <= j < |ids| => CountFor(st, st.waiters[ids[j]].reservationIds, date, slot))
  }

  /** `getLeastBusyWaiter`: the first waiter of the location's list with the
      fewest reservations on that date and slot, and "" for an empty list.
      None stands for the null dereference when the location or one of the
      listed waiters is missing. */
  function LeastBusyWaiter(st: State, locationId: string, date: int, slot: int): (r: Option<string>)
    ensures r.Some? <==> locationId in st.locations && AllListed(st, st.locations[locationId].listOfWaiters)
    ensures r.Some? && st.locations[locationId].listOfWaiters == [] ==> r.value == ""
  {
    if locationId !in st.locations then None
    else
      var ids := st.locations[locationId].listOfWaiters;
      if !AllListed(st, ids) then None
      else if ids == [] then Some("")
      else Some(ids[FirstMin(WaiterCounts(st, ids, date, slot))])
  }

  /** The waiter chosen is one with the fewest reservations on that date and
      slot, and every waiter listed before it has strictly more: ties go to
      the earliest. */
  lemma LeastBusyIsFirstMinimum(st: State, locationId: string, date: int, slot: int)
    requires LeastBusyWaiter(st, locationId, date, slot).Some?
    requires st.locations[locationId].listOfWaiters != []
    ensures var ids := st.locations[locationId].listOfWaiters;
      var cs := WaiterCounts(st, ids, date, slot);
      exists k :: 0 <= k < |ids| && LeastBusyWaiter(st, locationId, date, slot).value == ids[k] &&
        (forall j :: 0 <= j < |ids| ==> cs[k] <= cs[j]) &&
        (forall j :: 0 <= j < k ==> cs[k] < cs[j])
  {
    var ids := st.locations[locationId].listOfWaiters;
    var k := FirstMin(WaiterCounts(st, ids, date, slot));
    assert LeastBusyWaiter(st, locationId, date, slot).value == ids[k];
  }

  method GetLeastBusyWaiter(db: Tables, locationId: string, date: int, slot: int) returns (r: Option<string>)
    ensures r == LeastBusyWaiter(db.Snapshot(), locationId, date, slot)
  {
    if locationId !in db.locations {
      return None;
    }
    var ids := db.locations[locationId].listOfWaiters;
    // getWaiter for every listed id; the loop below dereferences each of them
    var j := 0;
    while j < |ids|
      invariant 0 <= j <= |ids|
      invariant forall q :: 0 <= q < j ==> ids[q] in db.waiters
    {
      if ids[j] !in db.waiters {
        return None;
      }
      j := j + 1;
    }
    ghost var cs := WaiterCounts(db.Snapshot(), ids, date, slot);
    var best := "";
    var min: Option<nat> := None;  // Long.MAX_VALUE: no count seen yet
    j := 0;
    while j < |ids|
      invariant 0 <= j <= |ids|
      invariant j == 0 ==> best == "" && min.None?
      invariant j > 0 ==> min == Some(cs[FirstMin(cs[..j])]) && best == ids[FirstMin(cs[..j])]
    {
      var count := GetReservationCountForWaiter(db, date, slot, db.waiters[ids[j]].reservationIds);
      FirstMinStep(cs, j);
      if min.None? || count < min.value {
        best := ids[j];
        min := Some(count);
      }
      j := j + 1;
    }
    if ids != [] {
      assert cs[..|ids|] == cs;
    }
    return Some(best);
  }

  // ---------------------------------------------------------------------------
  // Booking
  // ---------------------------------------------------------------------------

  /** What stays fixed while `reserveTable` walks its slots. */
  datatype CustomerJob = CustomerJob(
    day: int,
    locationId: string,
    tableId: string,
    guests: int,
    userId: string,
    clock: Clock,
    bookedAt: int)

  function CustomerRecord(j: CustomerJob, i: int, waiterId: string): Reservation {
    Reservation(j.userId, SlotStatusForNow(i, j.day, j.clock), j.guests, [], "", j.bookedAt, waiterId, "Customer")
  }

  /** The loop of `reserveTable` from slot i to slot e, with the responses
      collected so far. */
  function ReserveSlots(st: State, j: CustomerJob, i: int, e: int, done: seq<Booked>): (Reply<seq<Booked>>, State)
    decreases e - i + 1
  {
    if i > e then (Body(200, done), st)
    else
      var k := Key(j.day, j.locationId, j.tableId, i);
      if IsSlotReserved(st, k) then (Message(409, TableAlreadyReserved), st)
      else if j.locationId !in st.locations then (Message(400, NoSuchLocation), st)
      else match LeastBusyWaiter(st, j.locationId, j.day, i)
        case None => (Message(500, ReserveFailed), st)
        case Some(w) =>
          var r := CustomerRecord(j, i, w);
          var st1 := PutRecord(st, k, r);
          if w !in st1.waiters then (Message(500, ReserveFailed), st1)
          else ReserveSlots(AppendId(st1, w, k), j, i + 1, e, done + [Booked(k, r, st.locations[j.locationId].address)])
  }

  /** The checks of `saveResponseForBooking` and the ones `reserveTable` makes
      before its loop, in the order the source makes them. */
  function SaveResponseCheck(st: State, req: BookingRequest, email: string, clock: Clock, bookedAt: int)
    : Check<Reply<seq<Booked>>, CustomerJob>
  {
    if req.date.Malformed? || req.guestsNumber.NotNumber? then Reject(Message(500, ReserveFailed))
    else
      var day := req.date.day;
      var guests := req.guestsNumber.n;
      if req.locationId !in st.locations then Reject(Message(400, NoSuchLocation))
      else if guests <= 0 then Reject(Message(400, GuestNumbersNotPositive))
      else if day < clock.today then Reject(Message(400, PastDate))
      else if !(req.timeFrom in TimePoints() && req.timeTo in TimePoints()) then
        Reject(Message(400, WrongTimeSlot))
      else if day == clock.today && PointNanos(req.timeTo) < clock.now then
        Reject(Message(400, PastSlot))
      else if PointNanos(req.timeFrom) > PointNanos(req.timeTo) then
        Reject(Message(400, StartAfterEnd))
      else if !LocationHasTable(st, req.locationId, req.tableNumber) then
        Reject(Message(400, TableNotFound(req.locationId)))
      else if req.tableNumber !in st.capacities then Reject(Message(500, ReserveFailed))
      else if st.capacities[req.tableNumber] < guests then
        Reject(Message(400, NoOfGuestsOverCapacity))
      // reserveTable
      else if email !in st.users then Reject(Message(500, ReserveFailed))
      else if !(day > clock.today || (day == clock.today && clock.now < PointNanos(req.timeFrom))) then
        Reject(Message(400, BookingTimeNotValid))
      else match (SlotByStartTime(req.timeFrom), SlotByEndTime(req.timeTo))
        case (Some(s), Some(e)) =>
          Proceed(CustomerJob(day, req.locationId, req.tableNumber, guests, email, clock, bookedAt), s, e)
        case _ => Reject(Message(500, ReserveFailed))
  }

  /** `saveResponseForBooking`: the reply and the tables afterwards. */
  function SaveResponseForBookingEffect(st: State, req: BookingRequest, email: string, clock: Clock, bookedAt: int)
    : (Reply<seq<Booked>>, State)
  {
    match SaveResponseCheck(st, req, email, clock, bookedAt)
    case Reject(reply) => (reply, st)
    case Proceed(j, s, e) => ReserveSlots(st, j, s, e, [])
  }

  method SaveResponseForBooking(db: Tables, req: BookingRequest, email: string, clock: Clock, bookedAt: int)
    returns (reply: Reply<seq<Booked>>)
    modifies db
    ensures (reply, db.Snapshot()) == SaveResponseForBookingEffect(old(db.Snapshot()), req, email, clock, bookedAt)
  {
    var check := SaveResponseCheck(db.Snapshot(), req, email, clock, bookedAt);
    if check.Reject? {
      return check.reply;
    }
    reply := ReserveTable(db, check.job, check.first, check.last);
  }

  method ReserveTable(db: Tables, j: CustomerJob, s: int, e: int) returns (reply: Reply<seq<Booked>>)
    modifies db
    ensures (reply, db.Snapshot()) == ReserveSlots(old(db.Snapshot()), j, s, e, [])
  {
    var responses: seq<Booked> := [];
    var i := s;
    while i <= e
      invariant ReserveSlots(db.Snapshot(), j, i, e, responses) == ReserveSlots(old(db.Snapshot()), j, s, e, [])
      decreases e - i + 1
    {
      var k := Key(j.day, j.locationId, j.tableId, i);
      if k in db.reservations && db.reservations[k].status == Reserved {
        return Message(409, TableAlreadyReserved);
      }
      if j.locationId !in db.locations {
        return Message(400, NoSuchLocation);
      }
      var address := db.locations[j.locationId].address;
      var w := GetLeastBusyWaiter(db, j.locationId, j.day, i);
      if w.None? {
        return Message(500, ReserveFailed);
      }
      var r := CustomerRecord(j, i, w.value);
      db.PutReservation(k, r);
      if w.value !in db.waiters {
        return Message(500, ReserveFailed);
      }
      var waiter := db.waiters[w.value];
      db.PutWaiter(w.value, waiter.(reservationIds := waiter.reservationIds + [k]));
      responses := responses + [Booked(k, r, address)];
      i := i + 1;
    }
    return Body(200, responses);
  }

  // ---------------------------------------------------------------------------
  // What the booking loop does
  // ---------------------------------------------------------------------------

  /** The key the loop writes for slot q. */
  function RunKey(j: CustomerJob, q: int): Key {
    Key(j.day, j.locationId, j.tableId, q)
  }

  /** Slot q holds the job's record, for some waiter. */
  predicate BookedFor(st: State, j: CustomerJob, q: int) {
    RunKey(j, q) in st.reservations &&
    st.reservations[RunKey(j, q)] == CustomerRecord(j, q, st.reservations[RunKey(j, q)].waiterId)
  }

  /** Slot q holds the job's record and the waiter it names lists it. */
  predicate ListedFor(st: State, j: CustomerJob, q: int) {
    BookedFor(st, j, q) &&
    st.reservations[RunKey(j, q)].waiterId in st.waiters &&
    RunKey(j, q) in st.waiters[st.reservations[RunKey(j, q)].waiterId].reservationIds
  }

  predicate InRun(k: Key, j: CustomerJob, i: int, e: int) {
    k.date == j.day && k.locationId == j.locationId && k.tableId == j.tableId && i <= k.slot <= e
  }

  /** The loop never touches locations, capacities or users, and only appends
      to existing waiter lists. */
  lemma {:induction false} ReserveSlotsFrame(st: State, j: CustomerJob, i: int, e: int, done: seq<Booked>)
    ensures var st' := ReserveSlots(st, j, i, e, done).1;
      SameSetup(st, st') && ListsGrown(st, st')
    decreases e - i + 1
  {
    if i <= e {
      var k := RunKey(j, i);
      if !IsSlotReserved(st, k) && j.locationId in st.locations {
        var w := LeastBusyWaiter(st, j.locationId, j.day, i);
        if w.Some? {
          var st1 := PutRecord(st, k, CustomerRecord(j, i, w.value));
          if w.value in st1.waiters {
            var st2 := AppendId(st1, w.value, k);
            var r := CustomerRecord(j, i, w.value);
            var done2 := done + [Booked(k, r, st.locations[j.locationId].address)];
            ReserveSlotsFrame(st2, j, i + 1, e, done2);
            AppendIdGrows(st1, w.value, k);
            ListsGrownTrans(st, st2, ReserveSlots(st2, j, i + 1, e, done2).1);
          }
        }
      }
    }
  }

  /** The loop writes only the run's keys. */
  lemma {:induction false} ReserveSlotsOutside(st: State, j: CustomerJob, i: int, e: int, done: seq<Booked>)
    ensures var st' := ReserveSlots(st, j, i, e, done).1;
      (forall k :: !InRun(k, j, i, e) ==> (k in st'.reservations <==> k in st.reservations)) &&
      (forall k :: !InRun(k, j, i, e) && k in st.reservations ==> st'.reservations[k] == st.reservations[k])
    decreases e - i + 1
  {
    if i <= e {
      var k := RunKey(j, i);
      if !IsSlotReserved(st, k) && j.locationId in st.locations {
        var w := LeastBusyWaiter(st, j.locationId, j.day, i);
        if w.Some? {
          var st1 := PutRecord(st, k, CustomerRecord(j, i, w.value));
          if w.value in st1.waiters {
            var st2 := AppendId(st1, w.value, k);
            var r := CustomerRecord(j, i, w.value);
            ReserveSlotsOutside(st2, j, i + 1, e, done + [Booked(k, r, st.locations[j.locationId].address)]);
          }
        }
      }
    }
  }

  /** A "Reserved" record is never overwritten by a customer booking. */
  lemma {:induction false} ReserveSlotsKeepsReserved(st: State, j: CustomerJob, i: int, e: int, done: seq<Booked>)
    ensures var st' := ReserveSlots(st, j, i, e, done).1;
      forall k :: IsSlotReserved(st, k) ==> k in st'.reservations && st'.reservations[k] == st.reservations[k]
    decreases e - i + 1
  {
    if i <= e {
      var k := RunKey(j, i);
      if !IsSlotReserved(st, k) && j.locationId in st.locations {
        var w := LeastBusyWaiter(st, j.locationId, j.day, i);
        if w.Some? {
          var r := CustomerRecord(j, i, w.value);
          var st1 := PutRecord(st, k, r);
          if w.value in st1.waiters {
            var st2 := AppendId(st1, w.value, k);
            ReserveSlotsKeepsReserved(st2, j, i + 1, e, done + [Booked(k, r, st.locations[j.locationId].address)]);
          }
        }
      }
    }
  }

  /** A 409 means that some slot of the run held a "Reserved" record before the
      call; the slots before it stay booked (nothing is rolled back). */
  lemma {:induction false} ReserveSlotsConflict(st: State, j: CustomerJob, i: int, e: int, done: seq<Booked>)
    ensures var (reply, st') := ReserveSlots(st, j, i, e, done);
      reply.Message? && reply.code == 409 ==>
        exists q :: i <= q <= e && IsSlotReserved(st, RunKey(j, q)) &&
          forall p :: i <= p < q ==> BookedFor(st', j, p)
    decreases e - i + 1
  {
    if i <= e {
      var k := RunKey(j, i);
      if !IsSlotReserved(st, k) && j.locationId in st.locations {
        var w := LeastBusyWaiter(st, j.locationId, j.day, i);
        if w.Some? {
          var r := CustomerRecord(j, i, w.value);
          var st1 := PutRecord(st, k, r);
          if w.value in st1.waiters {
            var st2 := AppendId(st1, w.value, k);
            var done2 := done + [Booked(k, r, st.locations[j.locationId].address)];
            var (reply, st') := ReserveSlots(st2, j, i + 1, e, done2);
            if reply.Message? && reply.code == 409 {
              ReserveSlotsConflict(st2, j, i + 1, e, done2);
              ReserveSlotsFrame(st2, j, i + 1, e, done2);
              ReserveSlotsOutside(st2, j, i + 1, e, done2);
              var q :| i + 1 <= q <= e && IsSlotReserved(st2, RunKey(j, q)) &&
                forall p :: i + 1 <= p < q ==> BookedFor(st', j, p);
              assert !InRun(k, j, i + 1, e);
              assert IsSlotReserved(st, RunKey(j, q));
            }
          }
        }
      }
    }
  }

  /** When no slot of the run holds a "Reserved" record, the loop does not
      answer 409: "In Progress" and "Cancelled" records do not block. */
  lemma {:induction false} ReserveSlotsNoConflict(st: State, j: CustomerJob, i: int, e: int, done: seq<Booked>)
    requires forall q :: i <= q <= e ==> !IsSlotReserved(st, RunKey(j, q))
    ensures var reply := ReserveSlots(st, j, i, e, done).0;
      !(reply.Message? && reply.code == 409)
    decreases e - i + 1
  {
    if i <= e {
      var k := RunKey(j, i);
      if j.locationId in st.locations {
        var w := LeastBusyWaiter(st, j.locationId, j.day, i);
        if w.Some? {
          var r := CustomerRecord(j, i, w.value);
          var st1 := PutRecord(st, k, r);
          if w.value in st1.waiters {
            var st2 := AppendId(st1, w.value, k);
            forall q | i + 1 <= q <= e
              ensures !IsSlotReserved(st2, RunKey(j, q))
            {
              assert RunKey(j, q) != k;
            }
            ReserveSlotsNoConflict(st2, j, i + 1, e, done + [Booked(k, r, st.locations[j.locationId].address)]);
          }
        }
      }
    }
  }

  /** The run's slot `i` can be booked: it holds no "Reserved" record, the
      location exists and a least busy waiter with a stored record is found. */
  predicate StepOk(st: State, j: CustomerJob, i: int) {
    !IsSlotReserved(st, RunKey(j, i)) && j.locationId in st.locations &&
    LeastBusyWaiter(st, j.locationId, j.day, i).Some? &&
    LeastBusyWaiter(st, j.locationId, j.day, i).value in st.waiters
  }

  function StepRecord(st: State, j: CustomerJob, i: int): Reservation
    requires StepOk(st, j, i)
  {
    CustomerRecord(j, i, LeastBusyWaiter(st, j.locationId, j.day, i).value)
  }

  function StepState(st: State, j: CustomerJob, i: int): State
    requires StepOk(st, j, i)
  {
    var w := LeastBusyWaiter(st, j.locationId, j.day, i).value;
    AppendId(PutRecord(st, RunKey(j, i), StepRecord(st, j, i)), w, RunKey(j, i))
  }

  function StepDone(st: State, j: CustomerJob, i: int, done: seq<Booked>): seq<Booked>
    requires StepOk(st, j, i)
  {
    done + [Booked(RunKey(j, i), StepRecord(st, j, i), st.locations[j.locationId].address)]
  }

  /** A run that succeeds booked its first slot and went on from there. */
  lemma ReserveSlotsStep(st: State, j: CustomerJob, i: int, e: int, done: seq<Booked>)
    requires i <= e && ReserveSlots(st, j, i, e, done).0.Body?
    ensures StepOk(st, j, i)
    ensures ReserveSlots(st, j, i, e, done) == ReserveSlots(StepState(st, j, i), j, i + 1, e, StepDone(st, j, i, done))
  {
  }

  /** What the step to slot `i` stores there. */
  lemma StepStored(st: State, j: CustomerJob, i: int)
    requires StepOk(st, j, i)
    ensures var st2 := StepState(st, j, i);
      var w := LeastBusyWaiter(st, j.locationId, j.day, i).value;
      RunKey(j, i) in st2.reservations && st2.reservations[RunKey(j, i)] == StepRecord(st, j, i) &&
      StepRecord(st, j, i).waiterId == w && w in st2.waiters && RunKey(j, i) in st2.waiters[w].reservationIds
  {
    var w := LeastBusyWaiter(st, j.locationId, j.day, i).value;
    var st1 := PutRecord(st, RunKey(j, i), StepRecord(st, j, i));
    var ids := st1.waiters[w].reservationIds;
    assert StepState(st, j, i).waiters[w].reservationIds == ids + [RunKey(j, i)];
    assert (ids + [RunKey(j, i)])[|ids|] == RunKey(j, i);
  }

  /** On success every slot of the run holds the customer's record and is
      listed by the waiter the record names. */
  lemma {:induction false} ReserveSlotsSuccess(st: State, j: CustomerJob, i: int, e: int, done: seq<Booked>)
    ensures var (reply, st') := ReserveSlots(st, j, i, e, done);
      reply.Body? ==> reply.code == 200 && forall q :: i <= q <= e ==> ListedFor(st', j, q)
    decreases e - i + 1
  {
    var (reply, st') := ReserveSlots(st, j, i, e, done);
    if i <= e && reply.Body? {
      ReserveSlotsStep(st, j, i, e, done);
      var st2, done2 := StepState(st, j, i), StepDone(st, j, i, done);
      ReserveSlotsSuccess(st2, j, i + 1, e, done2);
      ReserveSlotsFrame(st2, j, i + 1, e, done2);
      ReserveSlotsOutside(st2, j, i + 1, e, done2);
      StepStored(st, j, i);
      var k, w := RunKey(j, i), LeastBusyWaiter(st, j.locationId, j.day, i).value;
      assert !InRun(k, j, i + 1, e);
      assert st'.reservations[k] == st2.reservations[k];
      assert ListsGrown(st2, st');
      AppendedIsListed(st2.waiters[w].reservationIds, st'.waiters[w].reservationIds, k);
      assert ListedFor(st', j, i);
    }
  }

  /** On success the body holds the earlier responses and then one response
      per slot of the run, each naming the slot's key and its stored record. */
  lemma {:induction false} ReserveSlotsResponses(st: State, j: CustomerJob, i: int, e: int, done: seq<Booked>)
    ensures var (reply, st') := ReserveSlots(st, j, i, e, done);
      reply.Body? ==>
        |reply.value| == |done| + (if i <= e then e - i + 1 else 0) &&
        reply.value[..|done|] == done &&
        forall q :: i <= q <= e ==>
          reply.value[|done| + q - i].key == RunKey(j, q) &&
          RunKey(j, q) in st'.reservations &&
          reply.value[|done| + q - i].record == st'.reservations[RunKey(j, q)]
    decreases e - i + 1
  {
    var (reply, st') := ReserveSlots(st, j, i, e, done);
    if i <= e && reply.Body? {
      ReserveSlotsStep(st, j, i, e, done);
      var st2, done2 := StepState(st, j, i), StepDone(st, j, i, done);
      var rest := ReserveSlots(st2, j, i + 1, e, done2);
      assert rest.0 == reply && rest.1 == st';
      ReserveSlotsResponses(st2, j, i + 1, e, done2);
      ReserveSlotsOutside(st2, j, i + 1, e, done2);
      StepStored(st, j, i);
      var k, v := RunKey(j, i), reply.value;
      assert v[..|done2|] == done2;
      assert v[..|done|] == done2[..|done|];
      assert !InRun(k, j, i + 1, e);
      assert v[|done|] == done2[|done|];
      forall q | i < q <= e
        ensures v[|done| + q - i].key == RunKey(j, q)
        ensures RunKey(j, q) in st'.reservations
        ensures v[|done| + q - i].record == st'.reservations[RunKey(j, q)]
      {
        var t := |done| + q - i;
        assert t == |done2| + q - (i + 1);
        assert v[t].key == RunKey(j, q);
      }
      assert st'.reservations[k] == st2.reservations[k];
    }
  }

  /** A successful booking keeps every active record listed by its waiter. */
  lemma ReserveSlotsSynced(st: State, j: CustomerJob, i: int, e: int, done: seq<Booked>)
    requires Synced(st)
    ensures var (reply, st') := ReserveSlots(st, j, i, e, done);
      reply.Body? ==> Synced(st')
  {
    var (reply, st') := ReserveSlots(st, j, i, e, done);
    if reply.Body? {
      ReserveSlotsSuccess(st, j, i, e, done);
      ReserveSlotsFrame(st, j, i, e, done);
      ReserveSlotsOutside(st, j, i, e, done);
      forall k | k in st'.reservations && st'.reservations[k].status != Cancelled
        ensures st'.reservations[k].waiterId in st'.waiters &&
          k in st'.waiters[st'.reservations[k].waiterId].reservationIds
      {
        if InRun(k, j, i, e) {
          assert k == RunKey(j, k.slot);
          assert ListedFor(st', j, k.slot);
        } else {
          assert k in st.reservations && st'.reservations[k] == st.reservations[k];
          var w := st.reservations[k].waiterId;
          assert w in st.waiters && k in st.waiters[w].reservationIds;
          assert st.waiters[w].reservationIds <= st'.waiters[w].reservationIds;
        }
      }
    }
  }

  /** The loop answers 400 only when the location is missing. */
  lemma {:induction false} ReserveSlotsNo400(st: State, j: CustomerJob, i: int, e: int, done: seq<Booked>)
    requires j.locationId in st.locations
    ensures var reply := ReserveSlots(st, j, i, e, done).0;
      !(reply.Message? && reply.code == 400)
    decreases e - i + 1
  {
    if i <= e {
      var k := RunKey(j, i);
      var w := LeastBusyWaiter(st, j.locationId, j.day, i);
      if !IsSlotReserved(st, k) && w.Some? && w.value in st.waiters {
        var r := CustomerRecord(j, i, w.value);
        var st2 := AppendId(PutRecord(st, k, r), w.value, k);
        ReserveSlotsNo400(st2, j, i + 1, e, done + [Booked(k, r, st.locations[j.locationId].address)]);
      }
    }
  }

  // ---------------------------------------------------------------------------
  // What a customer booking does
  // ---------------------------------------------------------------------------

  /** Slot key k holds a customer booking made strictly ahead of time, listed by
      the waiter it names. */
  predicate CustomerBooked(st: State, k: Key, email: string, guests: int, bookedAt: int) {
    k in st.reservations &&
    var r := st.reservations[k];
    r.userId == email && r.status == Reserved && r.guests == guests && r.preOrder == [] &&
    r.feedbackId == "" && r.bookedAt == bookedAt && r.bookedBy == "Customer" &&
    r.waiterId in st.waiters && k in st.waiters[r.waiterId].reservationIds
  }

  /** Every 400 is answered before anything is written. */
  lemma SaveResponseBadRequestWritesNothing(st: State, req: BookingRequest, email: string, clock: Clock, bookedAt: int)
    ensures var (reply, st') := SaveResponseForBookingEffect(st, req, email, clock, bookedAt);
      reply.Message? && reply.code == 400 ==> st' == st
  {
    var check := SaveResponseCheck(st, req, email, clock, bookedAt);
    if check.Proceed? {
      ReserveSlotsNo400(st, check.job, check.first, check.last, []);
    }
  }

  /** A start time that is only a slot's end ("12:00") passes every check of
      the request and fails only at the slot lookup: the customer gets a 400
      or a 500, never a booking, and nothing is written. */
  lemma SaveResponseEndOnlyStart(st: State, req: BookingRequest, email: string, clock: Clock, bookedAt: int, q: int)
    requires IsSlot(q) && req.timeFrom == EndText(q)
    ensures var (reply, st') := SaveResponseForBookingEffect(st, req, email, clock, bookedAt);
      st' == st && reply.Message? && (reply.code == 400 || reply.code == 500)
  {
    SlotByStartTimeExact(req.timeFrom, q);
  }

  /** The checks let a request through only when it is valid, the table at the
      location seats the guests, the customer is a user, the first slot starts
      after the current time, and the start time names slot s and the end time
      slot e with s <= e. */
  lemma SaveResponseCheckProceeds(st: State, req: BookingRequest, email: string, clock: Clock, bookedAt: int)
    ensures var c := SaveResponseCheck(st, req, email, clock, bookedAt);
      c.Proceed? ==>
        req.date.Parsed? && req.guestsNumber.Num? && req.guestsNumber.n > 0 &&
        c.job == CustomerJob(req.date.day, req.locationId, req.tableNumber, req.guestsNumber.n, email, clock, bookedAt) &&
        LocationHasTable(st, req.locationId, req.tableNumber) &&
        req.tableNumber in st.capacities && st.capacities[req.tableNumber] >= req.guestsNumber.n &&
        email in st.users &&
        IsSlot(c.first) && IsSlot(c.last) && c.first <= c.last &&
        StartText(c.first) == req.timeFrom && EndText(c.last) == req.timeTo &&
        (req.date.day > clock.today || (req.date.day == clock.today && clock.now < StartNanos(c.first)))
  {
    var c := SaveResponseCheck(st, req, email, clock, bookedAt);
    if c.Proceed? {
      var s, e := c.first, c.last;
      assert SlotByStartTime(req.timeFrom) == Some(s) && SlotByEndTime(req.timeTo) == Some(e);
      SlotByStartTimeExact(req.timeFrom, s);
      SlotByEndTimeExact(req.timeTo, e);
      PointNanosAt(s);
      PointNanosAt(e);
      NanosOrdered(s, e);
    }
  }

  /** A successful booking: every slot of the run the checks chose now holds a
      "Reserved" record of the customer, listed by its waiter, and the body
      holds one response per slot. */
  lemma SaveResponseSuccess(st: State, req: BookingRequest, email: string, clock: Clock, bookedAt: int)
    ensures var (reply, st') := SaveResponseForBookingEffect(st, req, email, clock, bookedAt);
      reply.Body? ==>
        reply.code == 200 &&
        SaveResponseCheck(st, req, email, clock, bookedAt).Proceed? &&
        var c := SaveResponseCheck(st, req, email, clock, bookedAt);
        |reply.value| == c.last - c.first + 1 &&
        forall q :: c.first <= q <= c.last ==>
          CustomerBooked(st', RunKey(c.job, q), email, c.job.guests, bookedAt)
  {
    var (reply, st') := SaveResponseForBookingEffect(st, req, email, clock, bookedAt);
    var c := SaveResponseCheck(st, req, email, clock, bookedAt);
    if reply.Body? {
      assert c.Proceed?;
      SaveResponseCheckProceeds(st, req, email, clock, bookedAt);
      var j, s, e := c.job, c.first, c.last;
      ReserveSlotsSuccess(st, j, s, e, []);
      ReserveSlotsResponses(st, j, s, e, []);
      forall q | s <= q <= e
        ensures CustomerBooked(st', RunKey(j, q), email, j.guests, bookedAt)
      {
        assert ListedFor(st', j, q);
        NanosOrdered(s, q);
        BookedAheadIsReserved(q, j.day, clock);
      }
    }
  }

  /** A customer booking never overwrites a "Reserved" record. */
  lemma SaveResponseKeepsReserved(st: State, req: BookingRequest, email: string, clock: Clock, bookedAt: int, k: Key)
    requires IsSlotReserved(st, k)
    ensures var st' := SaveResponseForBookingEffect(st, req, email, clock, bookedAt).1;
      k in st'.reservations && st'.reservations[k] == st.reservations[k]
  {
    var check := SaveResponseCheck(st, req, email, clock, bookedAt);
    if check.Proceed? {
      ReserveSlotsKeepsReserved(st, check.job, check.first, check.last, []);
    }
  }

  /** A successful customer booking keeps every active record listed by its waiter. */
  lemma SaveResponseSynced(st: State, req: BookingRequest, email: string, clock: Clock, bookedAt: int)
    requires Synced(st)
    ensures var (reply, st') := SaveResponseForBookingEffect(st, req, email, clock, bookedAt);
      reply.Body? ==> Synced(st')
  {
    var check := SaveResponseCheck(st, req, email, clock, bookedAt);
    if check.Proceed? {
      ReserveSlotsSynced(st, check.job, check.first, check.last, []);
    }
  }

  // ---------------------------------------------------------------------------
  // Update
  // ---------------------------------------------------------------------------

  /** What stays fixed while `updateReservationById` rewrites its slots: the
      old key and record, the new date, location, table and guest count, the
      customer, and the waiter record read once before the loop (None when the
      record's waiter is missing). */
  datatype UpdateJob = UpdateJob(
    oldKey: Key,
    prior: Reservation,
    day: int,
    locationId: string,
    tableId: string,
    guests: int,
    email: string,
    waiter: Option<Waiter>)

  function UpdateKey(u: UpdateJob, q: int): Key {
    Key(u.day, u.locationId, u.tableId, q)
  }

  /** The record written for every new slot: "Reserved", with the new guest
      count, keeping the old pre-order, booking time, waiter and booker. */
  function UpdatedRecord(u: UpdateJob): Reservation {
    Reservation(u.email, Reserved, u.guests, u.prior.preOrder, "", u.prior.bookedAt, u.prior.waiterId, u.prior.bookedBy)
  }

  /** The loop of `updateReservationById` from slot i to slot e. */
  function RewriteSlots(st: State, u: UpdateJob, i: int, e: int, added: seq<Key>): Rewrite
    decreases e - i + 1
  {
    if i > e then Rewritten(st, added)
    else
      var k := UpdateKey(u, i);
      if IsSlotReserved(st, k) then Stopped(Message(409, TableAlreadyReserved), st)
      else if u.locationId !in st.locations then Stopped(Message(400, NoSuchLocation), st)
      else
        var st1 := PutRecord(st, k, UpdatedRecord(u));
        // waiter.getReservationIds() on a missing waiter
        if u.waiter.None? then Stopped(Message(500, UpdateFailed), st1)
        else RewriteSlots(st1, u, i + 1, e, added + [k])
  }

  /** After the loop: delete the old record, drop its id from the waiter's list
      (extended by the new ids) and store the waiter. With `keepRewritten` the
      old record is deleted only when the loop did not just rewrite it. */
  function FinishUpdate(st: State, u: UpdateJob, added: seq<Key>, keepRewritten: bool): (Reply<()>, State) {
    var st1 := if keepRewritten && u.oldKey in added then st
               else st.(reservations := st.reservations - {u.oldKey});
    match u.waiter
    case None => (Message(500, UpdateFailed), st1)
    case Some(w) =>
      (Message(200, ReservationUpdated),
       PutWaiterRecord(st1, u.prior.waiterId, w.(reservationIds := RemoveFirst(w.reservationIds + added, u.oldKey))))
  }

  /** The checks of `updateReservationById`, in the order the source makes
      them. The stored date is an ISO text with no letters, so comparing it to
      the request's date ignoring case is plain equality of the dates; a
      request date that does not parse never matches it. */
  function UpdateCheck(st: State, id: Key, req: BookingRequest, email: string, clock: Clock): Check<Reply<()>, UpdateJob> {
    if id !in st.reservations then Reject(Message(404, ReservationNotFound))
    else
      var prior := st.reservations[id];
      if prior.userId != email then Reject(Message(403, NotYourReservation))
      else if prior.status == Cancelled then Reject(Message(400, CancelledNotModifiable))
      else if !EqualsIgnoreCase(id.locationId, req.locationId) then Reject(Message(400, LocationNotModifiable))
      else if req.date != Parsed(id.date) then Reject(Message(400, DateNotModifiable))
      else if ParseLocalTime(req.timeFrom).None? || ParseLocalTime(req.timeTo).None? then
        Reject(Message(400, InvalidTimeFormat))
      else
        var start := ParseLocalTime(req.timeFrom).value;
        var end := ParseLocalTime(req.timeTo).value;
        if start >= end then Reject(Message(400, StartNotBeforeEnd))
        else if req.guestsNumber.NotNumber? then Reject(Message(400, InvalidGuestNumber))
        else if req.guestsNumber.n <= 0 then Reject(Message(400, GuestNumberNotPositive))
        else if id.date < clock.today then Reject(Message(400, UpdatePastDate))
        else if id.date == clock.today && end < clock.now then Reject(Message(400, SlotPassed))
        else if !LocationHasTable(st, req.locationId, req.tableNumber) then
          Reject(Message(400, TableNotFound(req.locationId)))
        // tableHasCapacity dereferences a missing table
        else if req.tableNumber !in st.capacities then Reject(Message(500, UpdateFailed))
        else if st.capacities[req.tableNumber] < req.guestsNumber.n then
          Reject(Message(400, GuestsOverCapacity))
        // extractSlotIndex(null)
        else if SlotByStartTime(req.timeFrom).None? || SlotByEndTime(req.timeTo).None? then Reject(Message(500, UpdateFailed))
        else
          var waiter := if prior.waiterId in st.waiters then Some(st.waiters[prior.waiterId]) else None;
          Proceed(UpdateJob(id, prior, id.date, req.locationId, req.tableNumber, req.guestsNumber.n, email, waiter),
                  SlotByStartTime(req.timeFrom).value, SlotByEndTime(req.timeTo).value)
  }

  function UpdateOutcome(st: State, id: Key, req: BookingRequest, email: string, clock: Clock, keepRewritten: bool)
    : (Reply<()>, State)
  {
    match UpdateCheck(st, id, req, email, clock)
    case Reject(reply) => (reply, st)
    case Proceed(u, s, e) => UpdateRun(st, u, s, e, keepRewritten)
  }

  /** The loop and the step after it. */
  function UpdateRun(st: State, u: UpdateJob, s: int, e: int, keepRewritten: bool): (Reply<()>, State) {
    match RewriteSlots(st, u, s, e, [])
    case Stopped(reply, st1) => (reply, st1)
    case Rewritten(st1, added) => FinishUpdate(st1, u, added, keepRewritten)
  }

  /** `updateReservationById` as the source writes it: the old record is
      deleted after the loop even when the loop has just rewritten it. */
  function UpdateReservationAsWritten(st: State, id: Key, req: BookingRequest, email: string, clock: Clock)
    : (Reply<()>, State)
  {
    UpdateOutcome(st, id, req, email, clock, false)
  }

  /** `updateReservationById` with the old record deleted only when it is not
      one of the new slots; the rest of the model uses this one. */
  function UpdateReservationEffect(st: State, id: Key, req: BookingRequest, email: string, clock: Clock)
    : (Reply<()>, State)
  {
    UpdateOutcome(st, id, req, email, clock, true)
  }

  method UpdateReservationById(db: Tables, id: Key, req: BookingRequest, email: string, clock: Clock)
    returns (reply: Reply<()>)
    modifies db
    ensures (reply, db.Snapshot()) == UpdateReservationEffect(old(db.Snapshot()), id, req, email, clock)
  {
    var check := UpdateCheck(db.Snapshot(), id, req, email, clock);
    if check.Reject? {
      return check.reply;
    }
    var u := check.job;
    var stopped, added := RewriteTable(db, u, check.first, check.last);
    if stopped.Some? {
      return stopped.value;
    }
    reply := FinishTable(db, u, added);
  }

  /** The loop, writing one new slot at a time. */
  method RewriteTable(db: Tables, u: UpdateJob, s: int, e: int) returns (stopped: Option<Reply<()>>, added: seq<Key>)
    modifies db
    ensures var rw := RewriteSlots(old(db.Snapshot()), u, s, e, []);
      db.Snapshot() == rw.st &&
      (stopped.Some? <==> rw.Stopped?) &&
      (rw.Stopped? ==> stopped.value == rw.reply) &&
      (rw.Rewritten? ==> added == rw.added)
  {
    added := [];
    var i := s;
    while i <= e
      invariant RewriteSlots(db.Snapshot(), u, i, e, added) == RewriteSlots(old(db.Snapshot()), u, s, e, [])
      decreases e - i + 1
    {
      var k := UpdateKey(u, i);
      if k in db.reservations && db.reservations[k].status == Reserved {
        return Some(Message(409, TableAlreadyReserved)), added;
      }
      if u.locationId !in db.locations {
        return Some(Message(400, NoSuchLocation)), added;
      }
      db.PutReservation(k, UpdatedRecord(u));
      if u.waiter.None? {
        return Some(Message(500, UpdateFailed)), added;
      }
      added := added + [k];
      i := i + 1;
    }
    return None, added;
  }

  /** After the loop, deleting the old record only when it was not rewritten. */
  method FinishTable(db: Tables, u: UpdateJob, added: seq<Key>) returns (reply: Reply<()>)
    modifies db
    ensures (reply, db.Snapshot()) == FinishUpdate(old(db.Snapshot()), u, added, true)
  {
    if u.oldKey !in added {
      db.DeleteReservation(u.oldKey);
    }
    if u.waiter.None? {
      return Message(500, UpdateFailed);
    }
    var w := u.waiter.value;
    db.PutWaiter(u.prior.waiterId, w.(reservationIds := RemoveFirst(w.reservationIds + added, u.oldKey)));
    return Message(200, ReservationUpdated);
  }

  // ---------------------------------------------------------------------------
  // What the update loop does
  // ---------------------------------------------------------------------------

  predicate InUpdateRun(k: Key, u: UpdateJob, i: int, e: int) {
    k.date == u.day && k.locationId == u.locationId && k.tableId == u.tableId && i <= k.slot <= e
  }

  /** The new ids, slot i to slot e in order. */
  function UpdateRunKeys(u: UpdateJob, i: int, e: int): (ks: seq<Key>)
    ensures |ks| == (if i <= e then e - i + 1 else 0)
    ensures forall p :: 0 <= p < |ks| ==> ks[p] == UpdateKey(u, i + p)
    ensures forall k :: k in ks <==> InUpdateRun(k, u, i, e)
    decreases e - i + 1
  {
    if i > e then [] else [UpdateKey(u, i)] + UpdateRunKeys(u, i + 1, e)
  }

  /** The loop writes only the run's keys, each with the updated record, and
      leaves the waiter, location, capacity and user tables alone. */
  lemma {:induction false} RewriteFrame(st: State, u: UpdateJob, i: int, e: int, added: seq<Key>)
    ensures var st' := RewriteSlots(st, u, i, e, added).st;
      st'.waiters == st.waiters && st'.locations == st.locations &&
      st'.capacities == st.capacities && st'.users == st.users &&
      (forall k :: !InUpdateRun(k, u, i, e) ==> (k in st'.reservations <==> k in st.reservations)) &&
      (forall k :: !InUpdateRun(k, u, i, e) && k in st.reservations ==> st'.reservations[k] == st.reservations[k]) &&
      (forall k :: k in st.reservations ==> k in st'.reservations)
    decreases e - i + 1
  {
    if i <= e {
      var k := UpdateKey(u, i);
      if !IsSlotReserved(st, k) && u.locationId in st.locations && u.waiter.Some? {
        RewriteFrame(PutRecord(st, k, UpdatedRecord(u)), u, i + 1, e, added + [k]);
      }
    }
  }

  /** A "Reserved" record is never overwritten by the update loop. */
  lemma {:induction false} RewriteKeepsReserved(st: State, u: UpdateJob, i: int, e: int, added: seq<Key>, k: Key)
    requires IsSlotReserved(st, k)
    ensures var st' := RewriteSlots(st, u, i, e, added).st;
      k in st'.reservations && st'.reservations[k] == st.reservations[k]
    decreases e - i + 1
  {
    if i <= e {
      var k0 := UpdateKey(u, i);
      if !IsSlotReserved(st, k0) && u.locationId in st.locations && u.waiter.Some? {
        RewriteKeepsReserved(PutRecord(st, k0, UpdatedRecord(u)), u, i + 1, e, added + [k0], k);
      }
    }
  }

  /** When the loop gets through, every slot holds the updated record and
      the new ids follow the earlier ones in slot order. */
  lemma {:induction false} RewriteDone(st: State, u: UpdateJob, i: int, e: int, added: seq<Key>)
    ensures var rw := RewriteSlots(st, u, i, e, added);
      rw.Rewritten? ==>
        rw.added == added + UpdateRunKeys(u, i, e) &&
        (i <= e ==> u.waiter.Some?) &&
        forall q :: i <= q <= e ==>
          UpdateKey(u, q) in rw.st.reservations && rw.st.reservations[UpdateKey(u, q)] == UpdatedRecord(u)
    decreases e - i + 1
  {
    var rw := RewriteSlots(st, u, i, e, added);
    if i <= e && rw.Rewritten? {
      var k := UpdateKey(u, i);
      var st1 := PutRecord(st, k, UpdatedRecord(u));
      assert rw == RewriteSlots(st1, u, i + 1, e, added + [k]);
      RewriteDone(st1, u, i + 1, e, added + [k]);
      RewriteFrame(st1, u, i + 1, e, added + [k]);
      assert !InUpdateRun(k, u, i + 1, e);
      assert added + [k] + UpdateRunKeys(u, i + 1, e) == added + UpdateRunKeys(u, i, e);
    }
  }

  /** The loop stops only with 409, 500, or 400 for a missing location. */
  lemma {:induction false} RewriteStopCodes(st: State, u: UpdateJob, i: int, e: int, added: seq<Key>)
    ensures var rw := RewriteSlots(st, u, i, e, added);
      rw.Stopped? ==>
        rw.reply.Message? &&
        (rw.reply.code == 409 || rw.reply.code == 500 || (rw.reply.code == 400 && u.locationId !in st.locations))
    decreases e - i + 1
  {
    if i <= e {
      var k := UpdateKey(u, i);
      if !IsSlotReserved(st, k) && u.locationId in st.locations && u.waiter.Some? {
        RewriteStopCodes(PutRecord(st, k, UpdatedRecord(u)), u, i + 1, e, added + [k]);
      }
    }
  }

  /** Slot p of the new run holds the updated record. */
  predicate UpdatedAt(st: State, u: UpdateJob, p: int) {
    UpdateKey(u, p) in st.reservations && st.reservations[UpdateKey(u, p)] == UpdatedRecord(u)
  }

  /** A 409 means that some slot of the run held a "Reserved" record; the
      slots before it keep the updated record, and the waiter's list is not
      extended by them. */
  lemma {:induction false} RewriteConflict(st: State, u: UpdateJob, i: int, e: int, added: seq<Key>)
    ensures var rw := RewriteSlots(st, u, i, e, added);
      rw.Stopped? && rw.reply == Message(409, TableAlreadyReserved) ==>
        rw.st.waiters == st.waiters &&
        exists q :: i <= q <= e && IsSlotReserved(st, UpdateKey(u, q)) &&
          forall p :: i <= p < q ==> UpdatedAt(rw.st, u, p)
    decreases e - i + 1
  {
    var rw := RewriteSlots(st, u, i, e, added);
    RewriteFrame(st, u, i, e, added);
    if i <= e && rw.Stopped? && rw.reply == Message(409, TableAlreadyReserved) {
      var k := UpdateKey(u, i);
      if !IsSlotReserved(st, k) {
        var st1 := PutRecord(st, k, UpdatedRecord(u));
        assert rw == RewriteSlots(st1, u, i + 1, e, added + [k]);
        RewriteConflict(st1, u, i + 1, e, added + [k]);
        RewriteFrame(st1, u, i + 1, e, added + [k]);
        var q :| i + 1 <= q <= e && IsSlotReserved(st1, UpdateKey(u, q)) &&
          forall p :: i + 1 <= p < q ==> UpdatedAt(rw.st, u, p);
        assert !InUpdateRun(k, u, i + 1, e);
        assert IsSlotReserved(st, UpdateKey(u, q));
        assert UpdatedAt(rw.st, u, i);
      }
    }
  }

  /** The loop stops with 409 at a "Reserved" slot of the run at the latest,
      once the location and the waiter are there. */
  lemma {:induction false} RewriteStopsAt(st: State, u: UpdateJob, i: int, e: int, added: seq<Key>, q: int)
    requires i <= q <= e && IsSlotReserved(st, UpdateKey(u, q))
    requires u.locationId in st.locations && u.waiter.Some?
    ensures var rw := RewriteSlots(st, u, i, e, added);
      rw.Stopped? && rw.reply == Message(409, TableAlreadyReserved)
    decreases e - i + 1
  {
    var k := UpdateKey(u, i);
    if q != i && !IsSlotReserved(st, k) {
      assert k != UpdateKey(u, q);
      RewriteStopsAt(PutRecord(st, k, UpdatedRecord(u)), u, i + 1, e, added + [k], q);
    }
  }

  // ---------------------------------------------------------------------------
  // What an update does
  // ---------------------------------------------------------------------------

  /** The checks let an update through only for the customer's own active
      reservation, at the same location and date, with valid times naming slot
      s and slot e, s <= e, a guest count the new table seats, and the new run
      not over; the waiter is the one the old record names. */
  lemma UpdateCheckProceeds(st: State, id: Key, req: BookingRequest, email: string, clock: Clock)
    ensures var c := UpdateCheck(st, id, req, email, clock);
      c.Proceed? ==>
        id in st.reservations && c.job.prior == st.reservations[id] && c.job.oldKey == id &&
        c.job.prior.userId == email && c.job.prior.status != Cancelled &&
        EqualsIgnoreCase(id.locationId, req.locationId) && req.date == Parsed(id.date) &&
        req.guestsNumber.Num? && req.guestsNumber.n > 0 &&
        c.job == UpdateJob(id, c.job.prior, id.date, req.locationId, req.tableNumber, req.guestsNumber.n, email, c.job.waiter) &&
        (c.job.waiter.Some? <==> c.job.prior.waiterId in st.waiters) &&
        (c.job.waiter.Some? ==> c.job.waiter.value == st.waiters[c.job.prior.waiterId]) &&
        LocationHasTable(st, req.locationId, req.tableNumber) &&
        req.tableNumber in st.capacities && st.capacities[req.tableNumber] >= req.guestsNumber.n &&
        IsSlot(c.first) && IsSlot(c.last) && c.first <= c.last &&
        StartText(c.first) == req.timeFrom && EndText(c.last) == req.timeTo &&
        (id.date > clock.today || (id.date == clock.today && clock.now <= EndNanos(c.last)))
  {
    var c := UpdateCheck(st, id, req, email, clock);
    if c.Proceed? {
      var s, e := c.first, c.last;
      assert SlotByStartTime(req.timeFrom) == Some(s) && SlotByEndTime(req.timeTo) == Some(e);
      SlotByStartTimeExact(req.timeFrom, s);
      SlotByEndTimeExact(req.timeTo, e);
      CatalogTimes(s);
      CatalogTimes(e);
      NanosOrdered(s, e);
    }
  }

  /** Every 400, 403 and 404 is answered before anything is written. */
  lemma UpdateRejectWritesNothing(st: State, id: Key, req: BookingRequest, email: string, clock: Clock)
    ensures var (reply, st') := UpdateReservationEffect(st, id, req, email, clock);
      reply.Message? && (reply.code == 400 || reply.code == 403 || reply.code == 404) ==> st' == st
  {
    var c := UpdateCheck(st, id, req, email, clock);
    if c.Proceed? {
      UpdateCheckLocation(st, id, req, email, clock);
      UpdateRunNo400(st, c.job, c.first, c.last);
    }
  }

  lemma UpdateCheckLocation(st: State, id: Key, req: BookingRequest, email: string, clock: Clock)
    ensures var c := UpdateCheck(st, id, req, email, clock);
      c.Proceed? ==> c.job.locationId in st.locations
  {
  }

  lemma UpdateRunNo400(st: State, u: UpdateJob, s: int, e: int)
    requires u.locationId in st.locations
    ensures var reply := UpdateRun(st, u, s, e, true).0;
      !(reply.Message? && (reply.code == 400 || reply.code == 403 || reply.code == 404))
  {
    RewriteStopCodes(st, u, s, e, []);
  }

  /** What the loop and the step after it do when they succeed: the new
      slots hold the updated record and the old record stays only when it is
      one of them. */
  lemma UpdateRunRecords(st: State, u: UpdateJob, s: int, e: int)
    ensures var (reply, st') := UpdateRun(st, u, s, e, true);
      reply == Message(200, ReservationUpdated) ==>
        u.waiter.Some? &&
        (forall q :: s <= q <= e ==>
          UpdateKey(u, q) in st'.reservations && st'.reservations[UpdateKey(u, q)] == UpdatedRecord(u)) &&
        (u.oldKey in st'.reservations <==> InUpdateRun(u.oldKey, u, s, e))
  {
    var rw := RewriteSlots(st, u, s, e, []);
    RewriteDone(st, u, s, e, []);
    RewriteStopCodes(st, u, s, e, []);
    if rw.Rewritten? && u.waiter.Some? {
      var ks := UpdateRunKeys(u, s, e);
      assert [] + ks == ks;
      var st1 := if u.oldKey in ks then rw.st else rw.st.(reservations := rw.st.reservations - {u.oldKey});
      var st' := UpdateRun(st, u, s, e, true).1;
      assert st'.reservations == st1.reservations;
      assert u.oldKey in ks <==> InUpdateRun(u.oldKey, u, s, e);
      forall q | s <= q <= e
        ensures UpdateKey(u, q) in st'.reservations && st'.reservations[UpdateKey(u, q)] == UpdatedRecord(u)
      {
        assert InUpdateRun(UpdateKey(u, q), u, s, e);
      }
    }
  }

  /** The loop and the step after it touch no reservation outside the new
      slots and the old key. */
  lemma UpdateRunKeepsOthers(st: State, u: UpdateJob, s: int, e: int)
    ensures var (reply, st') := UpdateRun(st, u, s, e, true);
      reply == Message(200, ReservationUpdated) ==>
        (forall k :: k != u.oldKey && !InUpdateRun(k, u, s, e) ==> (k in st'.reservations <==> k in st.reservations)) &&
        (forall k :: k != u.oldKey && !InUpdateRun(k, u, s, e) && k in st.reservations ==>
          st'.reservations[k] == st.reservations[k])
  {
    var rw := RewriteSlots(st, u, s, e, []);
    RewriteFrame(st, u, s, e, []);
    RewriteStopCodes(st, u, s, e, []);
    if rw.Rewritten? && u.waiter.Some? {
      var st1 := if u.oldKey in rw.added then rw.st else rw.st.(reservations := rw.st.reservations - {u.oldKey});
      var st' := UpdateRun(st, u, s, e, true).1;
      assert st'.reservations == st1.reservations;
      forall k | k != u.oldKey && !InUpdateRun(k, u, s, e)
        ensures (k in st'.reservations <==> k in st.reservations)
        ensures k in st.reservations ==> st'.reservations[k] == st.reservations[k]
      {
        assert (k in rw.st.reservations <==> k in st.reservations);
      }
    }
  }

  /** The waiter's list gains the new ids and loses the old id once; the other
      tables stay as they were. */
  lemma UpdateRunWaiters(st: State, u: UpdateJob, s: int, e: int)
    ensures var (reply, st') := UpdateRun(st, u, s, e, true);
      reply == Message(200, ReservationUpdated) ==>
        u.waiter.Some? &&
        st'.waiters == st.waiters[u.prior.waiterId := u.waiter.value.(reservationIds :=
          RemoveFirst(u.waiter.value.reservationIds + UpdateRunKeys(u, s, e), u.oldKey))] &&
        st'.locations == st.locations && st'.capacities == st.capacities && st'.users == st.users
  {
    var rw := RewriteSlots(st, u, s, e, []);
    RewriteDone(st, u, s, e, []);
    RewriteFrame(st, u, s, e, []);
    RewriteStopCodes(st, u, s, e, []);
    if rw.Rewritten? && u.waiter.Some? {
      var w := u.waiter.value;
      var ks := UpdateRunKeys(u, s, e);
      assert [] + ks == ks;
      var st1 := if u.oldKey in ks then rw.st else rw.st.(reservations := rw.st.reservations - {u.oldKey});
      assert st1.waiters == st.waiters;
    }
  }

  /** A successful update: every new slot holds the updated record, the old
      record is gone unless it is one of the new slots, no other reservation
      changes, and the waiter's list gains the new ids and loses the old id
      once. */
  lemma UpdateSuccess(st: State, id: Key, req: BookingRequest, email: string, clock: Clock)
    ensures var (reply, st') := UpdateReservationEffect(st, id, req, email, clock);
      reply == Message(200, ReservationUpdated) ==>
        UpdateCheck(st, id, req, email, clock).Proceed? &&
        var c := UpdateCheck(st, id, req, email, clock);
        var u, s, e := c.job, c.first, c.last;
        (forall q :: s <= q <= e ==>
          UpdateKey(u, q) in st'.reservations && st'.reservations[UpdateKey(u, q)] == UpdatedRecord(u)) &&
        (id in st'.reservations <==> InUpdateRun(id, u, s, e)) &&
        (forall k :: k != id && !InUpdateRun(k, u, s, e) ==> (k in st'.reservations <==> k in st.reservations)) &&
        (forall k :: k != id && !InUpdateRun(k, u, s, e) && k in st.reservations ==>
          st'.reservations[k] == st.reservations[k]) &&
        u.prior.waiterId in st.waiters &&
        st'.waiters == st.waiters[u.prior.waiterId := st.waiters[u.prior.waiterId].(reservationIds :=
          RemoveFirst(st.waiters[u.prior.waiterId].reservationIds + UpdateRunKeys(u, s, e), id))] &&
        st'.locations == st.locations && st'.capacities == st.capacities && st'.users == st.users
  {
    var c := UpdateCheck(st, id, req, email, clock);
    if c.Proceed? {
      UpdateCheckProceeds(st, id, req, email, clock);
      UpdateRunRecords(st, c.job, c.first, c.last);
      UpdateRunKeepsOthers(st, c.job, c.first, c.last);
      UpdateRunWaiters(st, c.job, c.first, c.last);
    }
  }

  /** A successful update keeps every active record listed by its waiter. */
  lemma UpdateSynced(st: State, id: Key, req: BookingRequest, email: string, clock: Clock)
    requires Synced(st)
    ensures var (reply, st') := UpdateReservationEffect(st, id, req, email, clock);
      reply == Message(200, ReservationUpdated) ==> Synced(st')
  {
    var (reply, st') := UpdateReservationEffect(st, id, req, email, clock);
    if reply == Message(200, ReservationUpdated) {
      UpdateSuccess(st, id, req, email, clock);
      var c := UpdateCheck(st, id, req, email, clock);
      UpdateCheckProceeds(st, id, req, email, clock);
      var u, s, e := c.job, c.first, c.last;
      var w := u.prior.waiterId;
      var L := st.waiters[w].reservationIds;
      var R := UpdateRunKeys(u, s, e);
      assert id in L;
      forall k | k in st'.reservations && st'.reservations[k].status != Cancelled
        ensures st'.reservations[k].waiterId in st'.waiters &&
          k in st'.waiters[st'.reservations[k].waiterId].reservationIds
      {
        if InUpdateRun(k, u, s, e) {
          assert k == UpdateKey(u, k.slot);
          assert st'.reservations[k].waiterId == w;
          assert k in R;
          if k == id {
            assert multiset(L + R)[id] == multiset(L)[id] + multiset(R)[id];
          }
          RemoveFirstKeeps(L + R, k, id);
        } else {
          assert k != id;
          var v := st.reservations[k].waiterId;
          assert v in st.waiters && k in st.waiters[v].reservationIds;
          if v == w {
            RemoveFirstKeeps(L + R, k, id);
          }
        }
      }
    }
  }

  /** A "Reserved" reservation cannot be moved onto a run that contains its
      own slot: the loop meets the reservation itself and answers 409. */
  lemma UpdateOntoOwnReservedSlotConflicts(st: State, id: Key, req: BookingRequest, email: string, clock: Clock)
    requires UpdateCheck(st, id, req, email, clock).Proceed?
    requires st.reservations[id].status == Reserved
    requires st.reservations[id].waiterId in st.waiters
    requires req.locationId == id.locationId && req.tableNumber == id.tableId
    requires SlotByStartTime(req.timeFrom).value <= id.slot <= SlotByEndTime(req.timeTo).value
    ensures UpdateReservationEffect(st, id, req, email, clock).0 == Message(409, TableAlreadyReserved)
  {
    var c := UpdateCheck(st, id, req, email, clock);
    UpdateCheckProceeds(st, id, req, email, clock);
    assert id == UpdateKey(c.job, id.slot);
    RewriteStopsAt(st, c.job, c.first, c.last, [], id.slot);
  }

  // ---------------------------------------------------------------------------
  // The old record deleted after being rewritten
  // ---------------------------------------------------------------------------

  /** As the source writes it, a successful update never leaves a record under
      the old id, even when the old id is one of the slots just written. */
  lemma UpdateAsWrittenDropsOldId(st: State, id: Key, req: BookingRequest, email: string, clock: Clock)
    ensures var (reply, st') := UpdateReservationAsWritten(st, id, req, email, clock);
      reply == Message(200, ReservationUpdated) ==> id !in st'.reservations
  {
    var c := UpdateCheck(st, id, req, email, clock);
    if c.Proceed? {
      UpdateCheckProceeds(st, id, req, email, clock);
      RewriteStopCodes(st, c.job, c.first, c.last, []);
    }
  }

  /** A reservation "In Progress": a waiter's booking for customer "c" on slot 2,
      looked at while slot 2 is under way. */
  const ExampleKey: Key := Key(100, "L", "T", 2)
  const ExamplePrior: Reservation := Reservation("c", InProgress, 2, [], "", 0, "w", "Waiter")
  const ExampleState: State := State(
    map[ExampleKey := ExamplePrior],
    map["w" := Waiter("L", [ExampleKey])],
    map["L" := Location("A", ["T"], ["w"])],
    map["T" := 4],
    map[])
  /** The customer asks for three guests on the same slot. */
  const ExampleRequest: BookingRequest := BookingRequest("L", "T", Parsed(100), Num(3), StartText(2), EndText(2))
  const ExampleClock: Clock := Clock(100, StartNanos(2))
  const ExampleJob: UpdateJob := UpdateJob(ExampleKey, ExamplePrior, 100, "L", "T", 3, "c", Some(Waiter("L", [ExampleKey])))

  /** The example passes every check, and the loop rewrites the reservation's
      own slot. */
  lemma ExampleRewritesOwnSlot()
    ensures UpdateCheck(ExampleState, ExampleKey, ExampleRequest, "c", ExampleClock) == Proceed(ExampleJob, 2, 2)
    ensures RewriteSlots(ExampleState, ExampleJob, 2, 2, [])
      == Rewritten(PutRecord(ExampleState, ExampleKey, UpdatedRecord(ExampleJob)), [ExampleKey])
  {
    ExamplePasses();
    var st1 := PutRecord(ExampleState, ExampleKey, UpdatedRecord(ExampleJob));
    assert RewriteSlots(st1, ExampleJob, 3, 2, [ExampleKey]) == Rewritten(st1, [ExampleKey]);
  }

  lemma ExamplePasses()
    ensures UpdateCheck(ExampleState, ExampleKey, ExampleRequest, "c", ExampleClock) == Proceed(ExampleJob, 2, 2)
  {
    var st, id, req := ExampleState, ExampleKey, ExampleRequest;
    CatalogTimes(2);
    SlotByStartTimeExact(StartText(2), 2);
    SlotByEndTimeExact(EndText(2), 2);
    NanosOrdered(2, 2);
    assert id in st.reservations && st.reservations[id] == ExamplePrior;
    assert EqualsIgnoreCase(id.locationId, req.locationId);
    assert ParseLocalTime(req.timeFrom) == Some(StartNanos(2));
    assert ParseLocalTime(req.timeTo) == Some(EndNanos(2));
    assert LocationHasTable(st, "L", "T") by {
      assert st.locations["L"].tables[0] == "T";
    }
    assert st.capacities["T"] == 4;
    assert ExamplePrior.waiterId in st.waiters && st.waiters[ExamplePrior.waiterId] == Waiter("L", [ExampleKey]);
  }

  /** As written, the update of the example answers 200 and the reservation is
      gone. */
  lemma UpdateOntoOwnInProgressSlot()
    ensures var (reply, st') := UpdateReservationAsWritten(ExampleState, ExampleKey, ExampleRequest, "c", ExampleClock);
      reply == Message(200, ReservationUpdated) && ExampleKey !in st'.reservations
  {
    ExampleRewritesOwnSlot();
  }

  /** With the old record deleted only when it is not rewritten, the example's
      slot holds the updated record. */
  lemma UpdateKeepsOwnInProgressSlot()
    ensures var (reply, st') := UpdateReservationEffect(ExampleState, ExampleKey, ExampleRequest, "c", ExampleClock);
      reply == Message(200, ReservationUpdated) && ExampleKey in st'.reservations &&
      st'.reservations[ExampleKey] == Reservation("c", Reserved, 3, [], "", 0, "w", "Waiter")
  {
    ExampleRewritesOwnSlot();
  }
}
