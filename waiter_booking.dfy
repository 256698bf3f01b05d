/** WaiterService: a waiter books a table for a visitor or an existing
    customer, cancels and postpones reservations from their own list, and lists
    the reservations still ahead of them. */
module WaiterBooking {
  import opened Text
  import opened Slots
  import opened Keys
  import opened Store
  import opened Notes

  /** The request date as `saveBooking` reads it twice: `fitsPattern` says
      whether the "yyyy-MM-dd" formatter, whose default resolver is lenient
      about the day of the month, accepts the text (it takes "2025-02-30"),
      and `iso` is the strict ISO parse made later for the past-date test. */
  datatype BookingDate = BookingDate(fitsPattern: bool, iso: DateIn)

  /** WaiterBookingServiceRequest, with the date as parsed. */
  datatype WaiterBookingRequest = WaiterBookingRequest(
    locationId: string,
    tableNumber: string,
    date: BookingDate,
    guestsNumber: int,
    timeFrom: string,
    timeTo: string,
    clientType: string,
    customerEmail: string)

  /** WaiterBookingServiceResponse: the key, the stored record, the address of
      the location and whom the booking is for. */
  datatype WaiterBooked = WaiterBooked(key: Key, record: Reservation, address: string, bookedFor: string)

  /** `checkIfCustomer`: a user whose role is CUSTOMER, ignoring case. */
  predicate IsCustomer(st: State, email: string) {
    email in st.users && Lower(st.users[email].role) == "customer"
  }

  // ---------------------------------------------------------------------------
  // Booking
  // ---------------------------------------------------------------------------

  /** What stays fixed while `saveBooking` walks its slots. */
  datatype WaiterJob = WaiterJob(
    day: int,
    locationId: string,
    tableId: string,
    guests: int,
    userId: string,
    waiterId: string,
    clock: Clock,
    bookedAt: int,
    bookedFor: string)

  function WaiterRecord(j: WaiterJob, i: int): Reservation {
    Reservation(j.userId, SlotStatusForNow(i, j.day, j.clock), j.guests, [], "", j.bookedAt, j.waiterId, "Waiter")
  }

  function WaiterKey(j: WaiterJob, q: int): Key {
    Key(j.day, j.locationId, j.tableId, q)
  }

  /** The loop of `saveBooking` from slot i to slot e, with the response of the
      last slot written so far. */
  function WaiterSlots(st: State, j: WaiterJob, i: int, e: int, last: Option<WaiterBooked>)
    : (Reply<Option<WaiterBooked>>, State)
    decreases e - i + 1
  {
    if i > e then (Body(200, last), st)
    else
      var k := WaiterKey(j, i);
      if IsSlotActive(st, k) then (Message(409, TableAlreadyBooked), st)
      else if j.locationId !in st.locations then (Message(400, NoSuchLocationId), st)
      else
        var r := WaiterRecord(j, i);
        var st1 := PutRecord(st, k, r);
        if j.waiterId !in st1.waiters then (Message(500, WaiterReserveFailed), st1)
        else WaiterSlots(AppendId(st1, j.waiterId, k), j, i + 1, e,
                         Some(WaiterBooked(k, r, st.locations[j.locationId].address, j.bookedFor)))
  }

  /** The checks of `saveBooking`, in the order the source makes them. The
      start and end slots are looked up only once every time is known to be a
      boundary point. */
  function SaveBookingCheck(st: State, req: WaiterBookingRequest, email: string, clock: Clock, bookedAt: int)
    : Check<Reply<Option<WaiterBooked>>, WaiterJob>
  {
    // userDynamoDbTable.getItem(email).getEmail()
    if email !in st.users then Reject(Message(500, WaiterReserveFailed))
    else if req.locationId !in st.locations then Reject(Message(400, NoSuchLocationId))
    else if email !in st.locations[req.locationId].listOfWaiters then
      Reject(Message(401, NotAuthorisedToBook))
    else if !req.date.fitsPattern then Reject(Message(400, InvalidDateFormat))
    else if !(Lower(req.clientType) == "visitor" || Lower(req.clientType) == "existing") then
      Reject(Message(400, BadClientType))
    else if Lower(req.clientType) == "existing" && !IsCustomer(st, req.customerEmail) then
      Reject(Message(404, NoSuchCustomer))
    else if req.guestsNumber <= 0 then Reject(Message(400, GuestNumbersNotPositive))
    // LocalDate.parse(date) throws; the outer catch answers 500
    else if req.date.iso.Malformed? then Reject(Message(500, WaiterReserveFailed))
    else
      var visitor := Lower(req.clientType) == "visitor";
      var userId := if visitor then "Visitor" else req.customerEmail;
      var bookedFor := if visitor then "Visitor"
                       else "Customer " + st.users[req.customerEmail].firstName + " " + st.users[req.customerEmail].lastName;
      SlotRunCheck(st, req, WaiterJob(req.date.iso.day, req.locationId, req.tableNumber, req.guestsNumber,
                                      userId, email, clock, bookedAt, bookedFor))
  }

  /** The date, time, table and capacity checks of `saveBooking`, for the job
      the caller checks have fixed. */
  function SlotRunCheck(st: State, req: WaiterBookingRequest, j: WaiterJob): Check<Reply<Option<WaiterBooked>>, WaiterJob> {
    if j.day < j.clock.today then Reject(Message(400, PastDate))
    else if !(req.timeFrom in TimePoints() && req.timeTo in TimePoints()) then
      Reject(Message(400, WrongTimeSlot))
    else if j.day == j.clock.today && PointNanos(req.timeTo) < j.clock.now then
      Reject(Message(400, PastSlot))
    else if PointNanos(req.timeFrom) > PointNanos(req.timeTo) then
      Reject(Message(400, StartAfterEnd))
    else if !LocationHasTable(st, j.locationId, j.tableId) then
      Reject(Message(400, TableNotFound(j.locationId)))
    // tableHasCapacity dereferences a missing table
    else if j.tableId !in st.capacities then Reject(Message(500, WaiterReserveFailed))
    else if st.capacities[j.tableId] < j.guests then
      Reject(Message(400, GuestsAboveCapacity))
    // timeSlot1.charAt(...) on a start that is no slot's start
    else if SlotByStartTime(req.timeFrom).None? || SlotByEndTime(req.timeTo).None? then
      Reject(Message(500, WaiterReserveFailed))
    else Proceed(j, SlotByStartTime(req.timeFrom).value, SlotByEndTime(req.timeTo).value)
  }

  /** `saveBooking`: the reply and the tables afterwards. */
  function SaveBookingEffect(st: State, req: WaiterBookingRequest, email: string, clock: Clock, bookedAt: int)
    : (Reply<Option<WaiterBooked>>, State)
  {
    match SaveBookingCheck(st, req, email, clock, bookedAt)
    case Reject(reply) => (reply, st)
    case Proceed(j, s, e) => WaiterSlots(st, j, s, e, None)
  }

  method SaveBooking(db: Tables, req: WaiterBookingRequest, email: string, clock: Clock, bookedAt: int)
    returns (reply: Reply<Option<WaiterBooked>>)
    modifies db
    ensures (reply, db.Snapshot()) == SaveBookingEffect(old(db.Snapshot()), req, email, clock, bookedAt)
  {
    var check := SaveBookingCheck(db.Snapshot(), req, email, clock, bookedAt);
    if check.Reject? {
      return check.reply;
    }
    reply := BookSlots(db, check.job, check.first, check.last);
  }

  method BookSlots(db: Tables, j: WaiterJob, s: int, e: int) returns (reply: Reply<Option<WaiterBooked>>)
    modifies db
    ensures (reply, db.Snapshot()) == WaiterSlots(old(db.Snapshot()), j, s, e, None)
  {
    var response: Option<WaiterBooked> := None;
    var i := s;
    while i <= e
      invariant WaiterSlots(db.Snapshot(), j, i, e, response) == WaiterSlots(old(db.Snapshot()), j, s, e, None)
      decreases e - i + 1
    {
      var k := WaiterKey(j, i);
      if k in db.reservations && db.reservations[k].status != Cancelled {
        return Message(409, TableAlreadyBooked);
      }
      var r := WaiterRecord(j, i);
      if j.locationId !in db.locations {
        return Message(400, NoSuchLocationId);
      }
      var address := db.locations[j.locationId].address;
      db.PutReservation(k, r);
      if j.waiterId !in db.waiters {
        return Message(500, WaiterReserveFailed);
      }
      var waiter := db.waiters[j.waiterId];
      db.PutWaiter(j.waiterId, waiter.(reservationIds := waiter.reservationIds + [k]));
      response := Some(WaiterBooked(k, r, address, j.bookedFor));
      i := i + 1;
    }
    return Body(200, response);
  }

  // ---------------------------------------------------------------------------
  // What the booking loop does
  // ---------------------------------------------------------------------------

  predicate InWaiterRun(k: Key, j: WaiterJob, i: int, e: int) {
    k.date == j.day && k.locationId == j.locationId && k.tableId == j.tableId && i <= k.slot <= e
  }

  /** Slot q holds the job's record and the acting waiter lists it. */
  predicate WaiterBookedAt(st: State, j: WaiterJob, q: int) {
    WaiterKey(j, q) in st.reservations && st.reservations[WaiterKey(j, q)] == WaiterRecord(j, q) &&
    j.waiterId in st.waiters && WaiterKey(j, q) in st.waiters[j.waiterId].reservationIds
  }

  /** The loop never touches locations, capacities or users, and only appends
      to the acting waiter's list. */
  lemma {:induction false} WaiterSlotsFrame(st: State, j: WaiterJob, i: int, e: int, last: Option<WaiterBooked>)
    ensures var st' := WaiterSlots(st, j, i, e, last).1;
      SameSetup(st, st') && ListsGrown(st, st') &&
      forall w :: w in st.waiters && w != j.waiterId ==> st'.waiters[w] == st.waiters[w]
    decreases e - i + 1
  {
    if i <= e {
      var k := WaiterKey(j, i);
      if !IsSlotActive(st, k) && j.locationId in st.locations && j.waiterId in st.waiters {
        var r := WaiterRecord(j, i);
        var st2 := AppendId(PutRecord(st, k, r), j.waiterId, k);
        var last2 := Some(WaiterBooked(k, r, st.locations[j.locationId].address, j.bookedFor));
        assert WaiterSlots(st, j, i, e, last) == WaiterSlots(st2, j, i + 1, e, last2);
        WaiterSlotsFrame(st2, j, i + 1, e, last2);
        AppendIdGrows(PutRecord(st, k, r), j.waiterId, k);
        ListsGrownTrans(st, st2, WaiterSlots(st2, j, i + 1, e, last2).1);
      }
    }
  }

  /** The loop writes only the run's keys. */
  lemma {:induction false} WaiterSlotsOutside(st: State, j: WaiterJob, i: int, e: int, last: Option<WaiterBooked>)
    ensures var st' := WaiterSlots(st, j, i, e, last).1;
      (forall k :: !InWaiterRun(k, j, i, e) ==> (k in st'.reservations <==> k in st.reservations)) &&
      (forall k :: !InWaiterRun(k, j, i, e) && k in st.reservations ==> st'.reservations[k] == st.reservations[k])
    decreases e - i + 1
  {
    if i <= e {
      var k := WaiterKey(j, i);
      if !IsSlotActive(st, k) && j.locationId in st.locations && j.waiterId in st.waiters {
        var r := WaiterRecord(j, i);
        var st2 := AppendId(PutRecord(st, k, r), j.waiterId, k);
        var last2 := Some(WaiterBooked(k, r, st.locations[j.locationId].address, j.bookedFor));
        assert WaiterSlots(st, j, i, e, last) == WaiterSlots(st2, j, i + 1, e, last2);
        WaiterSlotsOutside(st2, j, i + 1, e, last2);
      }
    }
  }

  /** An active record ("Reserved" or "In Progress") is never overwritten by a
      waiter's booking. */
  lemma {:induction false} WaiterSlotsKeepActive(st: State, j: WaiterJob, i: int, e: int, last: Option<WaiterBooked>, k: Key)
    requires IsSlotActive(st, k)
    ensures var st' := WaiterSlots(st, j, i, e, last).1;
      k in st'.reservations && st'.reservations[k] == st.reservations[k]
    decreases e - i + 1
  {
    if i <= e {
      var k0 := WaiterKey(j, i);
      if !IsSlotActive(st, k0) && j.locationId in st.locations && j.waiterId in st.waiters {
        var r := WaiterRecord(j, i);
        var st2 := AppendId(PutRecord(st, k0, r), j.waiterId, k0);
        WaiterSlotsKeepActive(st2, j, i + 1, e, Some(WaiterBooked(k0, r, st.locations[j.locationId].address, j.bookedFor)), k);
      }
    }
  }

  /** A 409 means that some slot of the run held an active record before the
      call; the slots before it stay booked and listed. */
  lemma {:induction false} WaiterSlotsConflict(st: State, j: WaiterJob, i: int, e: int, last: Option<WaiterBooked>)
    ensures var (reply, st') := WaiterSlots(st, j, i, e, last);
      reply == Message(409, TableAlreadyBooked) ==>
        exists q :: i <= q <= e && IsSlotActive(st, WaiterKey(j, q)) &&
          forall p :: i <= p < q ==> WaiterBookedAt(st', j, p)
    decreases e - i + 1
  {
    var (reply, st') := WaiterSlots(st, j, i, e, last);
    if i <= e && reply == Message(409, TableAlreadyBooked) {
      var k := WaiterKey(j, i);
      if !IsSlotActive(st, k) {
        var r := WaiterRecord(j, i);
        var st2 := AppendId(PutRecord(st, k, r), j.waiterId, k);
        var last2 := Some(WaiterBooked(k, r, st.locations[j.locationId].address, j.bookedFor));
        assert (reply, st') == WaiterSlots(st2, j, i + 1, e, last2);
        WaiterSlotsConflict(st2, j, i + 1, e, last2);
        WaiterSlotsFrame(st2, j, i + 1, e, last2);
        WaiterSlotsOutside(st2, j, i + 1, e, last2);
        var q :| i + 1 <= q <= e && IsSlotActive(st2, WaiterKey(j, q)) &&
          forall p :: i + 1 <= p < q ==> WaiterBookedAt(st', j, p);
        assert !InWaiterRun(k, j, i + 1, e);
        assert IsSlotActive(st, WaiterKey(j, q));
        AppendedIsListed(st2.waiters[j.waiterId].reservationIds, st'.waiters[j.waiterId].reservationIds, k);
        assert WaiterBookedAt(st', j, i);
      }
    }
  }

  /** On success every slot of the run holds the waiter's record, listed by the
      acting waiter, and the body is the response for the last slot. */
  lemma {:induction false} WaiterSlotsSuccess(st: State, j: WaiterJob, i: int, e: int, last: Option<WaiterBooked>)
    ensures var (reply, st') := WaiterSlots(st, j, i, e, last);
      reply.Body? ==>
        reply.code == 200 &&
        (forall q :: i <= q <= e ==> WaiterBookedAt(st', j, q)) &&
        (i > e ==> reply.value == last) &&
        (i <= e ==> reply.value.Some? && reply.value.value.key == WaiterKey(j, e) &&
                    reply.value.value.record == WaiterRecord(j, e) &&
                    reply.value.value.bookedFor == j.bookedFor)
    decreases e - i + 1
  {
    var (reply, st') := WaiterSlots(st, j, i, e, last);
    if i <= e && reply.Body? {
      var k := WaiterKey(j, i);
      var r := WaiterRecord(j, i);
      var st2 := AppendId(PutRecord(st, k, r), j.waiterId, k);
      var last2 := Some(WaiterBooked(k, r, st.locations[j.locationId].address, j.bookedFor));
      assert (reply, st') == WaiterSlots(st2, j, i + 1, e, last2);
      WaiterSlotsSuccess(st2, j, i + 1, e, last2);
      WaiterSlotsFrame(st2, j, i + 1, e, last2);
      WaiterSlotsOutside(st2, j, i + 1, e, last2);
      assert !InWaiterRun(k, j, i + 1, e);
      AppendedIsListed(st2.waiters[j.waiterId].reservationIds, st'.waiters[j.waiterId].reservationIds, k);
      assert WaiterBookedAt(st', j, i);
    }
  }

  /** A successful waiter booking keeps every active record listed by its waiter. */
  lemma WaiterSlotsSynced(st: State, j: WaiterJob, i: int, e: int, last: Option<WaiterBooked>)
    requires Synced(st)
    ensures var (reply, st') := WaiterSlots(st, j, i, e, last);
      reply.Body? ==> Synced(st')
  {
    var (reply, st') := WaiterSlots(st, j, i, e, last);
    if reply.Body? {
      WaiterSlotsSuccess(st, j, i, e, last);
      WaiterSlotsFrame(st, j, i, e, last);
      WaiterSlotsOutside(st, j, i, e, last);
      forall k | k in st'.reservations && st'.reservations[k].status != Cancelled
        ensures st'.reservations[k].waiterId in st'.waiters &&
          k in st'.waiters[st'.reservations[k].waiterId].reservationIds
      {
        if InWaiterRun(k, j, i, e) {
          assert k == WaiterKey(j, k.slot);
          assert WaiterBookedAt(st', j, k.slot);
        } else {
          assert k in st.reservations && st'.reservations[k] == st.reservations[k];
          var w := st.reservations[k].waiterId;
          assert w in st.waiters && k in st.waiters[w].reservationIds;
          if w == j.waiterId {
            assert st.waiters[w].reservationIds <= st'.waiters[w].reservationIds;
          }
        }
      }
    }
  }

  /** The loop stops only with 409, 500, or 400 for a missing location. */
  lemma {:induction false} WaiterSlotsStopCodes(st: State, j: WaiterJob, i: int, e: int, last: Option<WaiterBooked>)
    ensures var reply := WaiterSlots(st, j, i, e, last).0;
      reply.Message? ==>
        reply.code == 409 || reply.code == 500 || (reply.code == 400 && j.locationId !in st.locations)
    decreases e - i + 1
  {
    if i <= e {
      var k := WaiterKey(j, i);
      if !IsSlotActive(st, k) && j.locationId in st.locations && j.waiterId in st.waiters {
        var r := WaiterRecord(j, i);
        var st2 := AppendId(PutRecord(st, k, r), j.waiterId, k);
        WaiterSlotsStopCodes(st2, j, i + 1, e, Some(WaiterBooked(k, r, st.locations[j.locationId].address, j.bookedFor)));
      }
    }
  }

  // ---------------------------------------------------------------------------
  // What a booking call does
  // ---------------------------------------------------------------------------

  /** What the checks establish before any slot is written: the acting waiter
      works at the location, the date and times are valid and ahead of the
      clock, the table belongs to the location and seats the party, and the
      booking is for a visitor or for a stored customer. */
  lemma SlotRunCheckProceeds(st: State, req: WaiterBookingRequest, j: WaiterJob)
    ensures var c := SlotRunCheck(st, req, j);
      c.Proceed? ==>
        c.job == j && j.clock.today <= j.day && LocationHasTable(st, j.locationId, j.tableId) &&
        j.tableId in st.capacities && j.guests <= st.capacities[j.tableId] &&
        IsSlot(c.first) && IsSlot(c.last) && c.first <= c.last &&
        StartText(c.first) == req.timeFrom && EndText(c.last) == req.timeTo &&
        (j.day == j.clock.today ==> j.clock.now <= EndNanos(c.last))
  {
    var c := SlotRunCheck(st, req, j);
    if c.Proceed? {
      PointNanosAt(c.first);
      PointNanosAt(c.last);
      NanosOrdered(c.first, c.last);
    }
  }

  lemma SaveBookingCheckProceeds(st: State, req: WaiterBookingRequest, email: string, clock: Clock, bookedAt: int)
    ensures var c := SaveBookingCheck(st, req, email, clock, bookedAt);
      c.Proceed? ==>
        email in st.users && LocationHasTable(st, req.locationId, req.tableNumber) &&
        email in st.locations[req.locationId].listOfWaiters &&
        req.date.fitsPattern && req.date.iso.Parsed? && c.job.day == req.date.iso.day && clock.today <= c.job.day &&
        req.tableNumber in st.capacities && 0 < req.guestsNumber <= st.capacities[req.tableNumber] &&
        IsSlot(c.first) && IsSlot(c.last) && c.first <= c.last &&
        StartText(c.first) == req.timeFrom && EndText(c.last) == req.timeTo &&
        (c.job.day == clock.today ==> clock.now <= EndNanos(c.last)) &&
        c.job.locationId == req.locationId && c.job.tableId == req.tableNumber &&
        c.job.guests == req.guestsNumber && c.job.waiterId == email && c.job.clock == clock &&
        (if Lower(req.clientType) == "visitor" then c.job.userId == "Visitor" && c.job.bookedFor == "Visitor"
         else Lower(req.clientType) == "existing" && IsCustomer(st, req.customerEmail) &&
              c.job.userId == req.customerEmail)
  {
    var c := SaveBookingCheck(st, req, email, clock, bookedAt);
    if c.Proceed? {
      SlotRunCheckProceeds(st, req, c.job);
    }
  }

  /** A date the lenient formatter takes but strict ISO parsing refuses is
      never booked. It fails late: after the client type, customer and guest
      checks, with 500, so a bad client type still gets its own 400. */
  lemma LenientOnlyDateFailsLate(st: State, req: WaiterBookingRequest, email: string, clock: Clock, bookedAt: int)
    requires req.date.fitsPattern && req.date.iso.Malformed?
    ensures var c := SaveBookingCheck(st, req, email, clock, bookedAt);
      c.Reject? &&
      (email in st.users && req.locationId in st.locations &&
       email in st.locations[req.locationId].listOfWaiters &&
       !(Lower(req.clientType) == "visitor" || Lower(req.clientType) == "existing") ==>
         c.reply.Message? && c.reply.code == 400 && c.reply.note.BadClientType?) &&
      (email in st.users && req.locationId in st.locations &&
       email in st.locations[req.locationId].listOfWaiters &&
       Lower(req.clientType) == "visitor" && req.guestsNumber > 0 ==>
         c.reply.Message? && c.reply.code == 500 && c.reply.note.WaiterReserveFailed?)
  {
  }

  /** A call that ends in anything but 409 or 500 leaves the tables as they
      were, unless it books every slot. */
  lemma SaveBookingPartialOnlyOnConflictOrError(st: State, req: WaiterBookingRequest, email: string, clock: Clock, bookedAt: int)
    ensures var (reply, st') := SaveBookingEffect(st, req, email, clock, bookedAt);
      reply.Message? && reply.code != 409 && reply.code != 500 ==> st' == st
  {
    var c := SaveBookingCheck(st, req, email, clock, bookedAt);
    if c.Proceed? {
      SaveBookingCheckProceeds(st, req, email, clock, bookedAt);
      WaiterSlotsStopCodes(st, c.job, c.first, c.last, None);
    }
  }

  /** A 200 reply books every slot of the requested run for the acting waiter and
      returns the response for the last slot, whose status reflects the clock. */
  lemma SaveBookingSuccess(st: State, req: WaiterBookingRequest, email: string, clock: Clock, bookedAt: int)
    ensures var (reply, st') := SaveBookingEffect(st, req, email, clock, bookedAt);
      var c := SaveBookingCheck(st, req, email, clock, bookedAt);
      reply.Body? ==>
        c.Proceed? && reply.code == 200 &&
        (forall q :: c.first <= q <= c.last ==> WaiterBookedAt(st', c.job, q)) &&
        reply.value.Some? &&
        reply.value.value.key == Key(req.date.iso.day, req.locationId, req.tableNumber, c.last) &&
        reply.value.value.record.waiterId == email &&
        reply.value.value.record.guests == req.guestsNumber &&
        reply.value.value.record.status == SlotStatusForNow(c.last, req.date.iso.day, clock)
  {
    var c := SaveBookingCheck(st, req, email, clock, bookedAt);
    if c.Proceed? {
      SaveBookingCheckProceeds(st, req, email, clock, bookedAt);
      WaiterSlotsSuccess(st, c.job, c.first, c.last, None);
    }
  }

  /** An active record is never overwritten by a waiter's booking. */
  lemma SaveBookingKeepsActive(st: State, req: WaiterBookingRequest, email: string, clock: Clock, bookedAt: int, k: Key)
    requires IsSlotActive(st, k)
    ensures var st' := SaveBookingEffect(st, req, email, clock, bookedAt).1;
      k in st'.reservations && st'.reservations[k] == st.reservations[k]
  {
    var c := SaveBookingCheck(st, req, email, clock, bookedAt);
    if c.Proceed? {
      WaiterSlotsKeepActive(st, c.job, c.first, c.last, None, k);
    }
  }

  /** A successful booking keeps every active record listed by its waiter. */
  lemma SaveBookingSynced(st: State, req: WaiterBookingRequest, email: string, clock: Clock, bookedAt: int)
    requires Synced(st)
    ensures var (reply, st') := SaveBookingEffect(st, req, email, clock, bookedAt);
      reply.Body? ==> Synced(st')
  {
    var c := SaveBookingCheck(st, req, email, clock, bookedAt);
    if c.Proceed? {
      WaiterSlotsSynced(st, c.job, c.first, c.last, None);
    }
  }

  // ---------------------------------------------------------------------------
  // Cancelling
  // ---------------------------------------------------------------------------

  /** `cancelReservationById`: a waiter cancels a "Reserved" record from their
      own list; the record stays, marked "Cancelled", and leaves the list. */
  function CancelEffect(st: State, id: Key, email: string): (Reply<()>, State) {
    if email !in st.waiters then (Message(404, NoSuchWaiter), st)
    else if id !in st.reservations then (Message(400, ReservationDoesNotExist), st)
    else if st.reservations[id].status != Reserved then
      (Message(400, NotCancellable), st)
    else if id !in st.waiters[email].reservationIds then
      (Message(403, NotAuthorizedToCancel), st)
    else
      var w := st.waiters[email];
      var st1 := PutRecord(st, id, st.reservations[id].(status := Cancelled));
      (Message(204, ReservationCancelled),
       PutWaiterRecord(st1, email, w.(reservationIds := RemoveFirst(w.reservationIds, id))))
  }

  method CancelReservationById(db: Tables, id: Key, email: string) returns (reply: Reply<()>)
    modifies db
    ensures (reply, db.Snapshot()) == CancelEffect(old(db.Snapshot()), id, email)
  {
    if email !in db.waiters {
      return Message(404, NoSuchWaiter);
    }
    var waiter := db.waiters[email];
    if id !in db.reservations {
      return Message(400, ReservationDoesNotExist);
    }
    var reservation := db.reservations[id];
    if reservation.status != Reserved {
      return Message(400, NotCancellable);
    }
    if id !in waiter.reservationIds {
      return Message(403, NotAuthorizedToCancel);
    }
    db.PutReservation(id, reservation.(status := Cancelled));
    db.PutWaiter(email, waiter.(reservationIds := RemoveFirst(waiter.reservationIds, id)));
    return Message(204, ReservationCancelled);
  }

  /** A cancellation succeeds exactly when the waiter exists, the record is
      "Reserved" and the waiter lists it; it then changes that record's
      status only and drops one listing of it. Any other outcome changes
      nothing. */
  lemma CancelOutcome(st: State, id: Key, email: string)
    ensures var (reply, st') := CancelEffect(st, id, email);
      (reply.code == 204 <==>
        email in st.waiters && IsSlotReserved(st, id) && id in st.waiters[email].reservationIds) &&
      (reply.code != 204 ==> st' == st) &&
      (reply.code == 204 ==>
        st'.reservations.Keys == st.reservations.Keys &&
        st'.reservations[id].status == Cancelled &&
        st'.reservations[id] == st.reservations[id].(status := Cancelled) &&
        (forall k :: k in st.reservations && k != id ==> st'.reservations[k] == st.reservations[k]) &&
        st'.waiters.Keys == st.waiters.Keys &&
        (forall w :: w in st.waiters && w != email ==> st'.waiters[w] == st.waiters[w]) &&
        multiset(st'.waiters[email].reservationIds) ==
          multiset(st.waiters[email].reservationIds) - multiset{id} &&
        st'.locations == st.locations && st'.capacities == st.capacities && st'.users == st.users)
  {
    if email in st.waiters && id in st.waiters[email].reservationIds {
      RemoveFirstCounts(st.waiters[email].reservationIds, id);
    }
  }

  /** Cancelling twice: the second call finds the record no longer "Reserved". */
  lemma CancelTwice(st: State, id: Key, email: string)
    requires CancelEffect(st, id, email).0.code == 204
    ensures CancelEffect(CancelEffect(st, id, email).1, id, email).0 ==
      Message(400, NotCancellable)
  {
  }

  /** Cancelling keeps every active record listed by its waiter. */
  lemma CancelSynced(st: State, id: Key, email: string)
    requires Synced(st)
    ensures Synced(CancelEffect(st, id, email).1)
  {
    var (reply, st') := CancelEffect(st, id, email);
    if reply.code == 204 {
      forall k | k in st'.reservations && st'.reservations[k].status != Cancelled
        ensures st'.reservations[k].waiterId in st'.waiters &&
          k in st'.waiters[st'.reservations[k].waiterId].reservationIds
      {
        assert k != id;
        var w := st.reservations[k].waiterId;
        assert k in st.waiters[w].reservationIds;
        if w == email {
          RemoveFirstKeeps(st.waiters[w].reservationIds, k, id);
        }
      }
    }
  }

  // ---------------------------------------------------------------------------
  // Postponing
  // ---------------------------------------------------------------------------

  /** WaiterUpdateBookingRequest, with the new date as parsed. */
  datatype PostponeRequest = PostponeRequest(date: DateIn, timeFrom: string, timeTo: string, tableNumber: string)

  /** What stays fixed while `postponeBooking` writes: the old record, the new
      date, the waiter's location and the table, and the waiter record as it was
      read before the loop. */
  datatype PostponeJob = PostponeJob(
    oldKey: Key,
    prior: Reservation,
    day: int,
    locationId: string,
    tableId: string,
    email: string,
    waiter: Waiter)

  /** The copy written at the new slot: "Reserved", with an empty feedback id,
      everything else taken over. */
  function PostponedRecord(prior: Reservation): Reservation {
    Reservation(prior.userId, Reserved, prior.guests, prior.preOrder, "", prior.bookedAt, prior.waiterId, prior.bookedBy)
  }

  function PostponeKey(j: PostponeJob, i: int): Key {
    Key(j.day, j.locationId, j.tableId, i)
  }

  /** The checks of `postponeBooking`, in the order the source makes them.
      Missing user or waiter records and a missing table capacity are
      dereferenced and end in the catch-all 500. */
  function PostponeCheck(st: State, id: Key, req: PostponeRequest, email: string, clock: Clock)
    : Check<Reply<()>, PostponeJob>
  {
    if email !in st.users then Reject(Message(500, UpdateFailed))
    else if Lower(st.users[email].role) != "waiter" then Reject(Message(401, NotAWaiter))
    else if id !in st.reservations then Reject(Message(400, NoReservation))
    else
      var prior := st.reservations[id];
      if !EqualsIgnoreCase(prior.waiterId, email) then
        Reject(Message(403, NotAuthorizedToPostpone))
      else if prior.status != Reserved then Reject(Message(400, OnlyReservedPostponed))
      else if id.date < clock.today then Reject(Message(400, PostponePastReservation))
      else if id.date == clock.today && !IsSlot(id.slot) then
        Reject(Message(400, InvalidCurrentSlot))
      else if id.date == clock.today && clock.now > StartNanos(id.slot) then
        Reject(Message(400, PostponeStartedSlot))
      else if req.date.Malformed? then Reject(Message(400, InvalidNewDateFormat))
      else if req.date.day < clock.today then Reject(Message(400, PostponeToPastDate))
      else if ParseLocalTime(req.timeFrom).None? || ParseLocalTime(req.timeTo).None? then
        Reject(Message(400, InvalidTimeFormatHint))
      else if req.date.day == clock.today && clock.now > ParseLocalTime(req.timeFrom).value then
        Reject(Message(400, PostponeToPastSlot))
      else if email !in st.waiters then Reject(Message(500, UpdateFailed))
      else
        var w := st.waiters[email];
        if !LocationHasTable(st, w.locationId, req.tableNumber) then
          Reject(Message(400, TableNotAtLocation))
        else if req.tableNumber !in st.capacities then Reject(Message(500, UpdateFailed))
        else if st.capacities[req.tableNumber] < prior.guests then
          Reject(Message(400, NoOfGuestsOverCapacity))
        else match ExactSlot(req.timeFrom, req.timeTo)
          case None => Reject(Message(400, NoMatchingSlot))
          // the start and end lookups then both find this slot (ExactSlotAgrees)
          case Some(i) => Proceed(PostponeJob(id, prior, req.date.day, w.locationId, req.tableNumber, email, w), i, i)
  }

  /** The loop of `postponeBooking` from slot i to slot e. The waiter's list
      grows in memory only; it is stored once, after the loop. */
  function PostponeSlots(st: State, j: PostponeJob, i: int, e: int, added: seq<Key>): Rewrite
    decreases e - i + 1
  {
    if i > e then Rewritten(st, added)
    else
      var k := PostponeKey(j, i);
      if IsSlotReserved(st, k) then Stopped(Message(409, TableAlreadyReserved), st)
      else PostponeSlots(PutRecord(st, k, PostponedRecord(j.prior)), j, i + 1, e, added + [k])
  }

  /** After the loop: the old record is deleted and the waiter record is stored
      with the new keys and without the old one. */
  function FinishPostpone(st: State, j: PostponeJob, added: seq<Key>): (Reply<()>, State) {
    var st1 := st.(reservations := st.reservations - {j.oldKey});
    (Message(200, ReservationUpdated),
     PutWaiterRecord(st1, j.email, j.waiter.(reservationIds := RemoveFirst(j.waiter.reservationIds + added, j.oldKey))))
  }

  function PostponeRun(st: State, j: PostponeJob, s: int, e: int): (Reply<()>, State) {
    match PostponeSlots(st, j, s, e, [])
    case Stopped(reply, st1) => (reply, st1)
    case Rewritten(st1, added) => FinishPostpone(st1, j, added)
  }

  /** `postponeBooking`: the reply and the tables afterwards. */
  function PostponeEffect(st: State, id: Key, req: PostponeRequest, email: string, clock: Clock): (Reply<()>, State) {
    match PostponeCheck(st, id, req, email, clock)
    case Reject(reply) => (reply, st)
    case Proceed(j, s, e) => PostponeRun(st, j, s, e)
  }

  method PostponeBooking(db: Tables, id: Key, req: PostponeRequest, email: string, clock: Clock)
    returns (reply: Reply<()>)
    modifies db
    ensures (reply, db.Snapshot()) == PostponeEffect(old(db.Snapshot()), id, req, email, clock)
  {
    var check := PostponeCheck(db.Snapshot(), id, req, email, clock);
    if check.Reject? {
      return check.reply;
    }
    var j, s, e := check.job, check.first, check.last;
    var added: seq<Key> := [];
    var i := s;
    while i <= e
      invariant db.Snapshot().waiters == old(db.Snapshot()).waiters
      invariant PostponeSlots(db.Snapshot(), j, i, e, added) == PostponeSlots(old(db.Snapshot()), j, s, e, [])
      decreases e - i + 1
    {
      var k := PostponeKey(j, i);
      if k in db.reservations && db.reservations[k].status == Reserved {
        return Message(409, TableAlreadyReserved);
      }
      db.PutReservation(k, PostponedRecord(j.prior));
      added := added + [k];
      i := i + 1;
    }
    db.DeleteReservation(j.oldKey);
    db.PutWaiter(j.email, j.waiter.(reservationIds := RemoveFirst(j.waiter.reservationIds + added, j.oldKey)));
    return Message(200, ReservationUpdated);
  }

  /** What the checks establish: the caller is a waiter named (ignoring case)
      on a "Reserved" record whose slot has not started, the new date and slot
      lie ahead of the clock, the table belongs to the waiter's location and
      seats the party, and the start and end lookups find the same slot. */
  lemma PostponeCheckProceeds(st: State, id: Key, req: PostponeRequest, email: string, clock: Clock)
    ensures var c := PostponeCheck(st, id, req, email, clock);
      c.Proceed? ==>
        email in st.users && Lower(st.users[email].role) == "waiter" &&
        id in st.reservations && c.job.prior == st.reservations[id] && c.job.oldKey == id &&
        c.job.prior.status == Reserved && EqualsIgnoreCase(c.job.prior.waiterId, email) &&
        clock.today <= id.date &&
        (id.date == clock.today ==> IsSlot(id.slot) && clock.now <= StartNanos(id.slot)) &&
        req.date.Parsed? && c.job.day == req.date.day && clock.today <= c.job.day &&
        email in st.waiters && c.job.waiter == st.waiters[email] && c.job.email == email &&
        c.job.locationId == st.waiters[email].locationId && c.job.tableId == req.tableNumber &&
        LocationHasTable(st, c.job.locationId, req.tableNumber) &&
        req.tableNumber in st.capacities && c.job.prior.guests <= st.capacities[req.tableNumber] &&
        IsSlot(c.first) && c.first == c.last &&
        SlotByStartTime(req.timeFrom) == Some(c.first) && SlotByEndTime(req.timeTo) == Some(c.last) &&
        (c.job.day == clock.today ==> clock.now <= StartNanos(c.first))
  {
    var c := PostponeCheck(st, id, req, email, clock);
    if c.Proceed? {
      ExactSlotAgrees(req.timeFrom, req.timeTo);
      CatalogTimes(c.first);
    }
  }

  /** The postponement's single slot: a 409 that writes nothing when the new
      key holds a "Reserved" record, otherwise the copy is written, the old
      record is deleted and the waiter record is stored. */
  lemma PostponeRunResult(st: State, j: PostponeJob, s: int)
    ensures var (reply, st') := PostponeRun(st, j, s, s);
      var nk := PostponeKey(j, s);
      (IsSlotReserved(st, nk) ==> reply == Message(409, TableAlreadyReserved) && st' == st) &&
      (!IsSlotReserved(st, nk) ==> reply == Message(200, ReservationUpdated) && Moved(st, st', j, nk))
  {
    var nk := PostponeKey(j, s);
    if !IsSlotReserved(st, nk) {
      var st1 := PutRecord(st, nk, PostponedRecord(j.prior));
      assert PostponeSlots(st, j, s, s, []) == Rewritten(st1, [nk]);
      assert [] + [nk] == [nk];
    }
  }

  /** The record moved from `j.oldKey` to `nk`: the copy is written at the new
      key, then the old key is deleted; the acting waiter's list (as read
      before the loop) gains the new key and loses the old one, and nothing else
      changes. */
  predicate Moved(st: State, st': State, j: PostponeJob, nk: Key) {
    st'.reservations == st.reservations[nk := PostponedRecord(j.prior)] - {j.oldKey} &&
    st'.waiters == st.waiters[j.email := j.waiter.(reservationIds :=
      RemoveFirst(j.waiter.reservationIds + [nk], j.oldKey))] &&
    SameSetup(st, st')
  }

  /** A successful postponement moves the record to a new key that differs from
      the old one and held no "Reserved" record, and the acting waiter lists
      the new key. */
  lemma PostponeSuccess(st: State, id: Key, req: PostponeRequest, email: string, clock: Clock)
    ensures var (reply, st') := PostponeEffect(st, id, req, email, clock);
      var c := PostponeCheck(st, id, req, email, clock);
      reply.code == 200 ==>
        c.Proceed? &&
        var nk := PostponeKey(c.job, c.first);
        nk != id && !IsSlotReserved(st, nk) && Moved(st, st', c.job, nk) &&
        id !in st'.reservations && nk in st'.reservations &&
        st'.reservations[nk] == PostponedRecord(st.reservations[id]) &&
        email in st'.waiters && nk in st'.waiters[email].reservationIds
  {
    var c := PostponeCheck(st, id, req, email, clock);
    if c.Proceed? {
      PostponeCheckProceeds(st, id, req, email, clock);
      PostponeRunResult(st, c.job, c.first);
      var nk := PostponeKey(c.job, c.first);
      if !IsSlotReserved(st, nk) {
        assert nk != id;
        RemoveFirstKeeps(c.job.waiter.reservationIds + [nk], nk, id);
      }
    }
  }

  /** Every failed postponement, a 409 included, leaves the tables unchanged. */
  lemma PostponeFailureWritesNothing(st: State, id: Key, req: PostponeRequest, email: string, clock: Clock)
    ensures var (reply, st') := PostponeEffect(st, id, req, email, clock);
      reply.code != 200 ==> st' == st
  {
    var c := PostponeCheck(st, id, req, email, clock);
    if c.Proceed? {
      PostponeCheckProceeds(st, id, req, email, clock);
      PostponeRunResult(st, c.job, c.first);
    }
  }

  /** A 409 means the target slot already holds a "Reserved" record. */
  lemma PostponeConflict(st: State, id: Key, req: PostponeRequest, email: string, clock: Clock)
    ensures var reply := PostponeEffect(st, id, req, email, clock).0;
      var c := PostponeCheck(st, id, req, email, clock);
      reply.code == 409 <==> c.Proceed? && IsSlotReserved(st, PostponeKey(c.job, c.first))
  {
    var c := PostponeCheck(st, id, req, email, clock);
    if c.Proceed? {
      PostponeCheckProceeds(st, id, req, email, clock);
      PostponeRunResult(st, c.job, c.first);
    }
  }

  /** Postponing a booking onto its own date, table and slot is a conflict with
      itself. */
  lemma PostponeOntoItselfConflicts(st: State, id: Key, req: PostponeRequest, email: string, clock: Clock)
    requires req.date == Parsed(id.date) && req.tableNumber == id.tableId
    requires email in st.waiters && st.waiters[email].locationId == id.locationId
    requires ExactSlot(req.timeFrom, req.timeTo) == Some(id.slot)
    ensures PostponeEffect(st, id, req, email, clock).0.code != 200
  {
    var c := PostponeCheck(st, id, req, email, clock);
    if c.Proceed? {
      PostponeCheckProceeds(st, id, req, email, clock);
      assert PostponeKey(c.job, c.first) == id;
    }
  }

  /** Moving a record whose waiter is the acting waiter keeps every active
      record listed by its waiter. */
  lemma MovedSynced(st: State, st': State, j: PostponeJob, nk: Key)
    requires Synced(st) && Moved(st, st', j, nk) && nk != j.oldKey
    requires j.email in st.waiters && j.waiter == st.waiters[j.email] && j.prior.waiterId == j.email
    ensures Synced(st')
  {
    forall k | k in st'.reservations && st'.reservations[k].status != Cancelled
      ensures st'.reservations[k].waiterId in st'.waiters &&
        k in st'.waiters[st'.reservations[k].waiterId].reservationIds
    {
      if k == nk {
        RemoveFirstKeeps(j.waiter.reservationIds + [nk], nk, j.oldKey);
      } else {
        assert k != j.oldKey && st'.reservations[k] == st.reservations[k];
        var w := st.reservations[k].waiterId;
        assert k in st.waiters[w].reservationIds;
        if w == j.email {
          RemoveFirstKeeps(st.waiters[w].reservationIds + [nk], k, j.oldKey);
        }
      }
    }
  }

  /** When the record names the acting waiter exactly, a postponement keeps every
      active record listed by its waiter. */
  lemma PostponeSynced(st: State, id: Key, req: PostponeRequest, email: string, clock: Clock)
    requires Synced(st)
    requires id in st.reservations ==> st.reservations[id].waiterId == email
    ensures Synced(PostponeEffect(st, id, req, email, clock).1)
  {
    var (reply, st') := PostponeEffect(st, id, req, email, clock);
    var c := PostponeCheck(st, id, req, email, clock);
    if reply.code == 200 {
      PostponeSuccess(st, id, req, email, clock);
      PostponeCheckProceeds(st, id, req, email, clock);
      var j, nk := c.job, PostponeKey(c.job, c.first);
      assert Moved(st, st', j, nk) && nk != j.oldKey;
      assert j.email in st.waiters && j.waiter == st.waiters[j.email] && j.prior.waiterId == j.email;
      MovedSynced(st, st', j, nk);
    } else {
      PostponeFailureWritesNothing(st, id, req, email, clock);
    }
  }

  // ---------------------------------------------------------------------------
  // Listing
  // ---------------------------------------------------------------------------

  /** WaiterReservationResponse. `bookedFor` stays unset (None) for a customer
      whose user record is missing. */
  datatype WaiterListing = WaiterListing(
    reservationId: Key,
    address: string,
    date: int,
    slotTime: string,
    bookedBy: string,
    guests: int,
    tableId: string,
    bookedFor: Option<string>)

  /** Slot i starts at or after time t: it is one of the `futureSlots`. */
  predicate Upcoming(t: int, i: int) {
    IsSlot(i) && t <= StartNanos(i)
  }

  /** The query time: the given time as `LocalTime.parse` reads it, or the
      current time cut to the minute when none is given. */
  function QueryTime(time: Option<string>, clock: Clock): Option<int> {
    match time
    case None => Some(TruncateToMinute(clock.now))
    case Some(t) => ParseLocalTime(t)
  }

  /** Where `getAllReservations` looks once its checks pass: the waiter's own
      list, walked in order, or one table's keys for each upcoming slot. */
  datatype ListingScan =
    | AnyTableScan(day: int, from: int, ids: seq<Key>)
    | TableScan(day: int, from: int, ids: seq<Key>, locationId: string, table: string)

  datatype ListingStart = Refused(reply: Reply<seq<WaiterListing>>) | Scan(scan: ListingScan)

  /** The checks of `getAllReservations`, in the order the source makes them. */
  function ListingCheck(st: State, waiterId: string, date: DateIn, time: Option<string>, table: string, clock: Clock)
    : ListingStart
  {
    if waiterId !in st.waiters then Refused(Message(404, NoWaiterWithEmail))
    else if date.Malformed? then Refused(Message(400, DateFormatNotCorrect))
    else if clock.today > date.day then Refused(Message(400, PastTravel))
    else if QueryTime(time, clock).None? then Refused(Message(400, InvalidTimeFormat))
    else
      var from := QueryTime(time, clock).value;
      if date.day == clock.today && TruncateToMinute(clock.now) > from then
        Refused(Message(400, PreviousSlots))
      else if !exists i :: 1 <= i <= 7 && Upcoming(from, i) then
        Refused(Message(204, NoSlotsAfterTime))
      else
        var w := st.waiters[waiterId];
        if Lower(table) == "any table" then Scan(AnyTableScan(date.day, from, w.reservationIds))
        // location.getTables() on a missing location
        else if w.locationId !in st.locations then Refused(Message(500, RetrieveFailed))
        else if !AnyEqualsIgnoreCase(st.locations[w.locationId].tables, table) then
          Refused(Message(400, TableNotOfLocation))
        else Scan(TableScan(date.day, from, w.reservationIds, w.locationId, table))
  }

  /** A record of the waiter's list that the "Any Table" walk keeps. */
  predicate AnyTableMatch(st: State, day: int, from: int, k: Key) {
    k in st.reservations && k.date == day && Upcoming(from, k.slot) && st.reservations[k].status == Reserved
  }

  /** The "Any Table" walk over the list, in list order. */
  function AnyTableMatches(st: State, ids: seq<Key>, day: int, from: int): (ms: seq<Key>)
    ensures forall k :: k in ms <==> k in ids && AnyTableMatch(st, day, from, k)
    ensures |ms| <= |ids|
  {
    if ids == [] then []
    else
      var k := ids[|ids| - 1];
      AnyTableMatches(st, ids[..|ids| - 1], day, from) + (if AnyTableMatch(st, day, from, k) then [k] else [])
  }

  /** The key of a specific table's slot that the source builds and looks up. */
  predicate TableMatch(st: State, q: ListingScan, i: int)
    requires q.TableScan?
  {
    var k := Key(q.day, q.locationId, q.table, i);
    Upcoming(q.from, i) && k in q.ids && k in st.reservations && st.reservations[k].status == Reserved
  }

  /** The walk over the slots in the catalog's iteration order `order` (which
      the source leaves unspecified) for a specific table. */
  function TableMatches(st: State, q: ListingScan, order: seq<int>): (ms: seq<Key>)
    requires q.TableScan?
    ensures forall k :: k in ms <==>
      k.date == q.day && k.locationId == q.locationId && k.tableId == q.table &&
      k.slot in order && TableMatch(st, q, k.slot)
  {
    if order == [] then []
    else
      var i := order[|order| - 1];
      TableMatches(st, q, order[..|order| - 1]) +
        (if TableMatch(st, q, i) then [Key(q.day, q.locationId, q.table, i)] else [])
  }

  function ScanMatches(st: State, q: ListingScan, order: seq<int>): seq<Key> {
    match q
    case AnyTableScan(day, from, ids) => AnyTableMatches(st, ids, day, from)
    case TableScan(_, _, _, _, _) => TableMatches(st, q, order)
  }

  /** `toWaiterReservationResponse` for one record; the address lookup of a
      missing location throws. */
  function ListingFor(st: State, k: Key): Option<WaiterListing>
    requires k in st.reservations && IsSlot(k.slot)
  {
    var r := st.reservations[k];
    if k.locationId !in st.locations then None
    else
      var bookedFor :=
        if Lower(r.userId) == "visitor" then Some("Visitor")
        else if r.userId in st.users then Some(st.users[r.userId].firstName + " " + st.users[r.userId].lastName)
        else None;
      Some(WaiterListing(k, st.locations[k.locationId].address, k.date, SlotTimings(k.slot), r.bookedBy,
                         r.guests, k.tableId, bookedFor))
  }

  predicate Listable(st: State, ms: seq<Key>) {
    forall p :: 0 <= p < |ms| ==> ms[p] in st.reservations && IsSlot(ms[p].slot)
  }

  /** `toWaiterReservationResponse`: one response per record, in order, or the
      failure of the first address lookup that throws. */
  function Listings(st: State, ms: seq<Key>): (r: Option<seq<WaiterListing>>)
    requires Listable(st, ms)
    ensures r.Some? <==> forall p :: 0 <= p < |ms| ==> ms[p].locationId in st.locations
    ensures r.Some? ==>
      |r.value| == |ms| && forall p :: 0 <= p < |ms| ==> Some(r.value[p]) == ListingFor(st, ms[p])
  {
    if ms == [] then Some([])
    else
      var rest := Listings(st, ms[..|ms| - 1]);
      var one := ListingFor(st, ms[|ms| - 1]);
      if rest.None? || one.None? then None else Some(rest.value + [one.value])
  }

  /** `getAllReservations`: the reply for a waiter's query. */
  function AllReservationsResult(st: State, waiterId: string, date: DateIn, time: Option<string>, table: string,
                                 clock: Clock, order: seq<int>): Reply<seq<WaiterListing>>
  {
    match ListingCheck(st, waiterId, date, time, table, clock)
    case Refused(reply) => reply
    case Scan(q) =>
      var ms := ScanMatches(st, q, order);
      ScanListable(st, q, order);
      if ms == [] then Message(204, NoReservationExist)
      else match Listings(st, ms)
        case None => Message(500, RetrieveFailed)
        case Some(ls) => Body(200, ls)
  }

  lemma ScanListable(st: State, q: ListingScan, order: seq<int>)
    ensures Listable(st, ScanMatches(st, q, order))
  {
    var ms := ScanMatches(st, q, order);
    forall p | 0 <= p < |ms|
      ensures ms[p] in st.reservations && IsSlot(ms[p].slot)
    {
      assert ms[p] in ms;
    }
  }

  method GetAllReservations(db: Tables, waiterId: string, date: DateIn, time: Option<string>, table: string,
                            clock: Clock, order: seq<int>) returns (reply: Reply<seq<WaiterListing>>)
    ensures reply == AllReservationsResult(db.Snapshot(), waiterId, date, time, table, clock, order)
  {
    var start := ListingCheck(db.Snapshot(), waiterId, date, time, table, clock);
    if start.Refused? {
      return start.reply;
    }
    var q := start.scan;
    var matching;
    if q.AnyTableScan? {
      matching := MatchAnyTable(db, q.ids, q.day, q.from);
    } else {
      matching := MatchTable(db, q, order);
    }
    ScanListable(db.Snapshot(), q, order);
    if matching == [] {
      return Message(204, NoReservationExist);
    }
    var listings := ToListings(db, matching);
    if listings.None? {
      return Message(500, RetrieveFailed);
    }
    return Body(200, listings.value);
  }

  /** The "Any Table" loop over the waiter's list. */
  method MatchAnyTable(db: Tables, ids: seq<Key>, day: int, from: int) returns (matching: seq<Key>)
    ensures matching == AnyTableMatches(db.Snapshot(), ids, day, from)
  {
    matching := [];
    var i := 0;
    while i < |ids|
      invariant 0 <= i <= |ids|
      invariant matching == AnyTableMatches(db.Snapshot(), ids[..i], day, from)
    {
      var k := ids[i];
      if k in db.reservations && k.date == day && IsSlot(k.slot) && from <= StartNanos(k.slot)
        && db.reservations[k].status == Reserved {
        matching := matching + [k];
      }
      assert ids[..i + 1][..i] == ids[..i];
      i := i + 1;
    }
    assert ids[..|ids|] == ids;
  }

  /** The loop over the upcoming slots for a specific table. */
  method MatchTable(db: Tables, q: ListingScan, order: seq<int>) returns (matching: seq<Key>)
    requires q.TableScan?
    ensures matching == TableMatches(db.Snapshot(), q, order)
  {
    matching := [];
    var i := 0;
    while i < |order|
      invariant 0 <= i <= |order|
      invariant matching == TableMatches(db.Snapshot(), q, order[..i])
    {
      var k := Key(q.day, q.locationId, q.table, order[i]);
      if IsSlot(order[i]) && q.from <= StartNanos(order[i]) && k in q.ids && k in db.reservations
        && db.reservations[k].status == Reserved {
        matching := matching + [k];
      }
      assert order[..i + 1][..i] == order[..i];
      i := i + 1;
    }
    assert order[..|order|] == order;
  }

  /** `toWaiterReservationResponse`. */
  method ToListings(db: Tables, matching: seq<Key>) returns (listings: Option<seq<WaiterListing>>)
    requires Listable(db.Snapshot(), matching)
    ensures listings == Listings(db.Snapshot(), matching)
  {
    var result: seq<WaiterListing> := [];
    var p := 0;
    while p < |matching|
      invariant 0 <= p <= |matching|
      invariant Listings(db.Snapshot(), matching[..p]) == Some(result)
    {
      assert matching[..p + 1][..p] == matching[..p];
      var one := ListingFor(db.Snapshot(), matching[p]);
      if one.None? {
        return None;
      }
      result := result + [one.value];
      p := p + 1;
    }
    assert matching[..|matching|] == matching;
    return Some(result);
  }

  // ---------------------------------------------------------------------------
  // What a listing returns
  // ---------------------------------------------------------------------------

  /** A record the query asks for: on the waiter's list, "Reserved", on the
      requested day, in an upcoming slot, and for a specific table that table
      at the waiter's location. */
  predicate Wanted(st: State, waiterId: string, day: int, from: int, table: string, k: Key)
    requires waiterId in st.waiters
  {
    k in st.waiters[waiterId].reservationIds && IsSlotReserved(st, k) && k.date == day && Upcoming(from, k.slot) &&
    (Lower(table) != "any table" ==> k.tableId == table && k.locationId == st.waiters[waiterId].locationId)
  }

  /** Each listed record is wanted, and listed under its own key. */
  lemma ListingsKeys(st: State, ms: seq<Key>)
    requires Listable(st, ms)
    ensures var r := Listings(st, ms);
      r.Some? ==> forall p :: 0 <= p < |ms| ==> r.value[p].reservationId == ms[p]
  {
  }

  /** The scan keeps exactly the wanted records, given a catalog order that
      visits every slot. */
  lemma ScanMatchesWanted(st: State, waiterId: string, date: DateIn, time: Option<string>, table: string,
                          clock: Clock, order: seq<int>)
    requires ListingCheck(st, waiterId, date, time, table, clock).Scan?
    ensures waiterId in st.waiters && date.Parsed? && QueryTime(time, clock).Some?
    ensures var q := ListingCheck(st, waiterId, date, time, table, clock).scan;
      forall k :: k in ScanMatches(st, q, order) ==>
        Wanted(st, waiterId, date.day, QueryTime(time, clock).value, table, k)
    ensures (forall i :: IsSlot(i) ==> i in order) ==>
      var q := ListingCheck(st, waiterId, date, time, table, clock).scan;
      forall k :: Wanted(st, waiterId, date.day, QueryTime(time, clock).value, table, k) ==>
        k in ScanMatches(st, q, order)
  {
    var q := ListingCheck(st, waiterId, date, time, table, clock).scan;
    if q.TableScan? {
      forall k | Wanted(st, waiterId, date.day, QueryTime(time, clock).value, table, k) && k.slot in order
        ensures k in ScanMatches(st, q, order)
      {
        assert k == Key(q.day, q.locationId, q.table, k.slot);
      }
    }
  }

  /** A 200 lists only wanted records, and lists every wanted one when the catalog order visits every slot; the checks
      before it have all passed. */
  lemma AllReservationsListed(st: State, waiterId: string, date: DateIn, time: Option<string>, table: string,
                              clock: Clock, order: seq<int>)
    ensures var reply := AllReservationsResult(st, waiterId, date, time, table, clock, order);
      reply.Body? ==>
        reply.code == 200 && |reply.value| > 0 &&
        waiterId in st.waiters && date.Parsed? && clock.today <= date.day && QueryTime(time, clock).Some? &&
        (date.day == clock.today ==> TruncateToMinute(clock.now) <= QueryTime(time, clock).value) &&
        (forall p :: 0 <= p < |reply.value| ==>
          Wanted(st, waiterId, date.day, QueryTime(time, clock).value, table, reply.value[p].reservationId)) &&
        ((forall i :: IsSlot(i) ==> i in order) ==>
          forall k :: Wanted(st, waiterId, date.day, QueryTime(time, clock).value, table, k) ==>
            exists p :: 0 <= p < |reply.value| && reply.value[p].reservationId == k)
  {
    var reply := AllReservationsResult(st, waiterId, date, time, table, clock, order);
    var start := ListingCheck(st, waiterId, date, time, table, clock);
    if reply.Body? {
      var q := start.scan;
      var ms := ScanMatches(st, q, order);
      ScanListable(st, q, order);
      ScanMatchesWanted(st, waiterId, date, time, table, clock, order);
      ListingsKeys(st, ms);
      forall p | 0 <= p < |reply.value|
        ensures Wanted(st, waiterId, date.day, QueryTime(time, clock).value, table, reply.value[p].reservationId)
      {
        assert ms[p] in ms;
      }
      if forall i :: IsSlot(i) ==> i in order {
        forall k | Wanted(st, waiterId, date.day, QueryTime(time, clock).value, table, k)
          ensures exists p :: 0 <= p < |reply.value| && reply.value[p].reservationId == k
        {
          var p :| 0 <= p < |ms| && ms[p] == k;
          assert reply.value[p].reservationId == k;
        }
      }
    }
  }

  /** "no reservation exist" (204) comes exactly when every check passes and no
      record is wanted, given a catalog order that visits every slot. */
  lemma NoReservationMeansNoneWanted(st: State, waiterId: string, date: DateIn, time: Option<string>, table: string,
                                     clock: Clock, order: seq<int>)
    requires forall i :: IsSlot(i) ==> i in order
    ensures AllReservationsResult(st, waiterId, date, time, table, clock, order) == Message(204, NoReservationExist)
      <==>
      ListingCheck(st, waiterId, date, time, table, clock).Scan? &&
      waiterId in st.waiters && date.Parsed? && QueryTime(time, clock).Some? &&
      forall k :: !Wanted(st, waiterId, date.day, QueryTime(time, clock).value, table, k)
  {
    var start := ListingCheck(st, waiterId, date, time, table, clock);
    if start.Scan? {
      var ms := ScanMatches(st, start.scan, order);
      ScanListable(st, start.scan, order);
      ScanMatchesWanted(st, waiterId, date, time, table, clock, order);
      if ms != [] {
        assert ms[0] in ms;
      }
    }
  }
}
