# Restaurant booking engine: a verified model

This project models the reservation engine of a restaurant booking API. The day has seven
fixed slots, 10:30–12:00 through 21:00–22:30, each 90 minutes long and 15 minutes apart. A
reservation record lives under a key made of the date, the location, the table and the slot.
Every reservation names a waiter, and each waiter keeps a list of reservation ids. The
operations on top of this are:

- **Customer booking.** The request checks of `saveResponseForBooking`, then the loop of
  `reserveTable` over the requested slots. Each slot is assigned `getLeastBusyWaiter`, the
  first listed waiter with the fewest bookings at that date and slot.
- **Customer edit and cancel.** `updateReservationById` re-books a reservation onto a new run
  of slots. `deleteReservationById` cancels a reservation; on the booking day itself it does so
  only until 30 minutes before the slot starts.
- **Waiter operations.** `saveBooking`, `cancelReservationById`, `postponeBooking` and the
  listing `getAllReservations`.
- **Availability.** `getAvailableTables`, `getAvailableTableWithSlots` and the reservation
  history.
- **Smaller pure pieces.**
  - The sign-up and sign-in checks, with the name, e-mail and password validators.
  - The paged and sorted location feedback.
  - The dish lookups and the dish selection and popularity orderings.

Layout:

- The tables (reservations, waiters, locations, table capacities, users) are fields of the
  class `Store.Tables`.
- The object has three writers: `PutReservation` saves a reservation, `DeleteReservation`
  deletes one and `PutWaiter` saves a waiter.
- Every operation that writes is a module-level method taking `db: Tables` and changing it
  only through those writers. It is proved equal to a function of the tables before the call,
  which returns the reply and the tables after the call:
  `(reply, db.Snapshot()) == Effect(old(db.Snapshot()), …)`.
- The loops of the source are `while` loops with invariants tying them to those functions.
- Lemmas then state what the functions guarantee:
  - the order of the checks and their status codes;
  - that a rejected request writes nothing;
  - what a successful call stores;
  - that a "Reserved" record is never overwritten (`ClientBooking.ReserveSlotsKeepsReserved`,
    `ClientBooking.RewriteKeepsReserved`), and that a waiter booking also keeps "In Progress"
    records (`WaiterBooking.WaiterSlotsKeepActive`);
  - that a successful call keeps every active record listed by the waiter it names
    (`Store.Synced`).

Files:

| file | module | contents |
|---|---|---|
| `text.dfy` | `Text` | trim, case mapping, `String.split` with a one-character separator, `List.remove` |
| `slots.dfy` | `Slots` | the slot catalog, time parsing, slot lookups |
| `keys.dfy` | `Keys` | reservation keys and the string ids they stand for |
| `notes.dfy` | `Notes` | the message texts the services return |
| `store.dfy` | `Store` | records, the `Tables` class, shared helpers |
| `client_booking.dfy` | `ClientBooking` | customer booking and edit |
| `waiter_booking.dfy` | `WaiterBooking` | waiter booking, cancel, postpone and listing |
| `reservations.dfy` | `Reservations` | availability, history, customer cancel |
| `users.dfy` | `Users` | validators, registration, sign-in |
| `sorting.dfy` | `Sorting` | the stable sort behind `stream().sorted` |
| `feedback_paging.dfy` | `FeedbackPaging` | paged location feedback |
| `dishes.dfy` | `Dishes` | dish queries |

In these places the code's behaviour is easy to misread; the model follows the code:

- A descending sort uses a reversed comparator in a stable sort. Elements with equal keys keep
  their input order in both directions (`Sorting.SortByStable`), so "desc" is not the reverse
  of "asc" (`Sorting.TiesKeepOrderBothWays`).
- The customer paths block only on a "Reserved" record, while the waiter booking and the
  availability query also block on "In Progress".
- `deleteReservationById` compares the owner case-sensitively; the history matches the owner
  ignoring case.
- A customer booking chooses its slot run from the start time's slot and the end time's slot. A
  boundary time that is only a slot's end, such as "12:00" as the start time, is not caught by
  the boundary-point check. It fails at the slot lookup instead (`ClientBooking.SaveResponseEndOnlyStart`).

## Model

| member | source | states |
|---|---|---|
| Text.TrimStart | restaurantapi-main/src/main/java/com/epam/edai/run8/team12/service/LocationService.java:65 | the result is a suffix of the input; every character dropped is at most U+0020, and the first character kept is above it |
| Text.TrimEnd | restaurantapi-main/src/main/java/com/epam/edai/run8/team12/service/LocationService.java:65 | the result is a prefix of the input; every character dropped is at most U+0020, and the last character kept is above it |
| Text.Lower | restaurantapi-main/src/main/java/com/epam/edai/run8/team12/service/LocationService.java:65 | same length, and each character is mapped by ASCII lower-casing |
| Text.LowerIdempotent | restaurantapi-main/src/main/java/com/epam/edai/run8/team12/service/LocationService.java:65 | lower-casing twice equals lower-casing once |
| Text.Upper | restaurantapi-main/src/main/java/com/epam/edai/run8/team12/service/LocationService.java:186 | same length, and each character is mapped by ASCII upper-casing |
| Text.SplitAll | restaurantapi-main/src/main/java/com/epam/edai/run8/team12/service/LocationService.java:144 | at least one field, and no field contains the separator |
| Text.SplitAllJoin | restaurantapi-main/src/main/java/com/epam/edai/run8/team12/service/LocationService.java:144 | joining the fields of `SplitAll` with the separator gives the text back |
| Text.JavaSplit | restaurantapi-main/src/main/java/com/epam/edai/run8/team12/service/LocationService.java:144 | no part contains the separator; a text without the separator comes back whole; otherwise the last part is not empty |
| Text.JavaSplitFields | restaurantapi-main/src/main/java/com/epam/edai/run8/team12/service/LocationService.java:144 | with the separator present, the parts are the fields of `SplitAll` with only trailing empty ones removed; in every case the joined parts are the text with only separators after them |
| Text.JoinDropTrailingEmpty | restaurantapi-main/src/main/java/com/epam/edai/run8/team12/service/LocationService.java:144 | removing trailing empty fields removes only trailing separators from the joined text |
| Text.SplitTwo | restaurantapi-main/src/main/java/com/epam/edai/run8/team12/service/LocationService.java:144-150 | two separator-free fields joined by one separator split back into exactly those two fields when the second is not empty |
| Text.TrailingSeparatorDropped | restaurantapi-main/src/main/java/com/epam/edai/run8/team12/service/LocationService.java:144-147 | a trailing separator adds no part, so "date,desc," reads as "date,desc" and "rating," as one part |
| Text.SeparatorOnlySplits | restaurantapi-main/src/main/java/com/epam/edai/run8/team12/service/DishService.java:46-49 | a lone comma splits into no parts and the empty text into one empty part |
| Text.SplitAllAppendSeparator | restaurantapi-main/src/main/java/com/epam/edai/run8/team12/service/LocationService.java:144 | splitting without dropping empty fields, one more separator adds exactly one empty field at the end |
| Text.RemoveFirst | restaurantapi-main/src/main/java/com/epam/edai/run8/team12/service/ReservationService.java:228 | removing an absent element changes nothing; removing a present one shortens the list by one |
| Text.RemoveFirstCounts | restaurantapi-main/src/main/java/com/epam/edai/run8/team12/service/ReservationService.java:228 | `remove(id)` takes exactly one occurrence out of the list (multiset difference) |
| Text.RemoveFirstKeeps | restaurantapi-main/src/main/java/com/epam/edai/run8/team12/service/ReservationService.java:228 | every other element stays, and so does the removed value when it occurred twice |
| Text.RemoveFirstAppend | restaurantapi-main/src/main/java/com/epam/edai/run8/team12/service/ClientBookingService.java:520-521 | elements in front of the first occurrence stay in front, in order |
| Keys.SlotName | restaurantapi-main/src/main/java/com/epam/edai/run8/team12/service/ClientBookingService.java:195 | the slot name is "slot" followed by one digit whose value is the slot index |
| Keys.SlotNameInjective | restaurantapi-main/src/main/java/com/epam/edai/run8/team12/service/ClientBookingService.java:328-330 | distinct slots have distinct names, so `extractSlotIndex` and `charAt(length - 1)` recover the index |
| Keys.IdsCanCollide | restaurantapi-main/src/main/java/com/epam/edai/run8/team12/service/ClientBookingService.java:198 | the separator-free id is not injective: location "L1" with table "1T" and location "L" with table "11T" give the same id |
| Keys.IdInjective | restaurantapi-main/src/main/java/com/epam/edai/run8/team12/service/ClientBookingService.java:198 | when the date texts and location ids have equal lengths, equal ids mean equal date, location, table and slot |
| Slots.ParseHhMm | restaurantapi-main/src/main/java/com/epam/edai/run8/team12/service/ClientBookingService.java:133-134 | a parsed "HH:mm" time is a minute of the day, below 1440 |
| Slots.FractionNanos | restaurantapi-main/src/main/java/com/epam/edai/run8/team12/service/ClientBookingService.java:431-432 | one to nine fraction digits give less than one second in nanoseconds |
| Slots.ParseLocalTime | restaurantapi-main/src/main/java/com/epam/edai/run8/team12/service/ClientBookingService.java:431-432 | an ISO local time lies within one day, and on a five-character text it agrees with the "HH:mm" reading |
| Slots.TruncateToMinute | restaurantapi-main/src/main/java/com/epam/edai/run8/team12/service/WaiterService.java:105 | the truncated time is a whole minute, at most the time and less than a minute before it |
| Slots.CatalogTimes | restaurantapi-main/src/main/java/com/epam/edai/run8/team12/service/ClientBookingService.java:40-48 | every catalog start and end text parses, in both formats, to the slot's minute arithmetic (10:30 plus 105 minutes per slot) |
| Slots.SlotsOrdered | restaurantapi-main/src/main/java/com/epam/edai/run8/team12/service/WaiterService.java:36-44 | each slot is 90 minutes long and 15 minutes before the next; slot i starts at or before slot j's end exactly when i <= j |
| Slots.NanosOrdered | restaurantapi-main/src/main/java/com/epam/edai/run8/team12/service/WaiterService.java:36-44 | the same order holds on the clock in nanoseconds, and every slot starts before it ends |
| Slots.TextsDistinct | restaurantapi-main/src/main/java/com/epam/edai/run8/team12/service/WaiterService.java:36-44 | no two starts coincide, no two ends coincide, and no start equals an end |
| Slots.PointNanosAt | restaurantapi-main/src/main/java/com/epam/edai/run8/team12/service/WaiterService.java:46-50 | every start and end text is a time point and names the slot's start or end time |
| Slots.PointNanosParses | restaurantapi-main/src/main/java/com/epam/edai/run8/team12/service/WaiterService.java:46-50 | a time point's time is the one its "HH:mm" text reads |
| Slots.FindStart | restaurantapi-main/src/main/java/com/epam/edai/run8/team12/service/WaiterService.java:776-782 | the scan finds a slot with that start text, or there is none from the scan's position on |
| Slots.FindEnd | restaurantapi-main/src/main/java/com/epam/edai/run8/team12/service/WaiterService.java:787-793 | the scan finds a slot with that end text, or there is none from the scan's position on |
| Slots.SlotByStartTimeExact | restaurantapi-main/src/main/java/com/epam/edai/run8/team12/service/ClientBookingService.java:306-312 | the start lookup answers slot i exactly for slot i's start text, and finds nothing for an end text |
| Slots.SlotByEndTimeExact | restaurantapi-main/src/main/java/com/epam/edai/run8/team12/service/ClientBookingService.java:317-323 | the end lookup answers slot i exactly for slot i's end text, and finds nothing for a start text |
| Slots.ExactSlot | restaurantapi-main/src/main/java/com/epam/edai/run8/team12/service/WaiterService.java:803-813 | the slot found has both texts; when none is found, no slot has both |
| Slots.ExactSlotAgrees | restaurantapi-main/src/main/java/com/epam/edai/run8/team12/service/WaiterService.java:803-813 | the exact-pair lookup agrees with the start lookup and with the end lookup |
| Slots.TimePointLookup | restaurantapi-main/src/main/java/com/epam/edai/run8/team12/service/WaiterService.java:524-526 | a text is a time point exactly when it is some slot's start or end |
| Slots.SlotLabel | restaurantapi-main/src/main/java/com/epam/edai/run8/team12/service/ReservationService.java:105 | the label is the start text, a dash and the end text |
| Slots.SlotLabelInjective | restaurantapi-main/src/main/java/com/epam/edai/run8/team12/service/ReservationService.java:98-108 | distinct slots have distinct labels |
| Store.Tables.PutReservation | restaurantapi-main/src/main/java/com/epam/edai/run8/team12/service/ClientBookingService.java:267 | only the reservation under that key changes |
| Store.Tables.DeleteReservation | restaurantapi-main/src/main/java/com/epam/edai/run8/team12/service/ClientBookingService.java:518 | only that key leaves the reservation table |
| Store.Tables.PutWaiter | restaurantapi-main/src/main/java/com/epam/edai/run8/team12/service/ClientBookingService.java:272-277 | only the waiter record under that e-mail changes |
| Store.AppendIdGrows | restaurantapi-main/src/main/java/com/epam/edai/run8/team12/service/ClientBookingService.java:272-277 | appending an id to a waiter's list only extends that list at its end, and changes no location, capacity or user |
| Store.SlotStatusForNow | restaurantapi-main/src/main/java/com/epam/edai/run8/team12/service/WaiterService.java:825-852 | the status is never "Cancelled"; it is "In Progress" exactly when the date is today and the slot's start <= now <= its end; otherwise, also for an unknown slot, it is "Reserved" |
| Store.BookedAheadIsReserved | restaurantapi-main/src/main/java/com/epam/edai/run8/team12/service/ClientBookingService.java:357-364 | a booking made strictly before its slot starts is recorded as "Reserved" |
| ClientBooking.CountFor | restaurantapi-main/src/main/java/com/epam/edai/run8/team12/service/ClientBookingService.java:568-583 | the count is at most the length of the list |
| ClientBooking.CountForAppend | restaurantapi-main/src/main/java/com/epam/edai/run8/team12/service/ClientBookingService.java:568-583 | the count over a list is the sum of the counts over its parts |
| ClientBooking.CountIgnoresStatus | restaurantapi-main/src/main/java/com/epam/edai/run8/team12/service/ClientBookingService.java:568-583 | the count depends on which keys are stored, not on their status, so cancelled bookings count |
| ClientBooking.GetReservationCountForWaiter | restaurantapi-main/src/main/java/com/epam/edai/run8/team12/service/ClientBookingService.java:568-583 | the loop's count is the number of listed ids stored at that date and slot |
| ClientBooking.FirstMin | restaurantapi-main/src/main/java/com/epam/edai/run8/team12/service/ClientBookingService.java:550-558 | the position holds a minimum, and every earlier position holds a strictly larger value |
| ClientBooking.FirstMinStep | restaurantapi-main/src/main/java/com/epam/edai/run8/team12/service/ClientBookingService.java:553 | one more value moves the first minimum to it only when the value is strictly smaller (`count < min`) |
| ClientBooking.WaiterCounts | restaurantapi-main/src/main/java/com/epam/edai/run8/team12/service/ClientBookingService.java:548-558 | one count per listed waiter, each that waiter's count at the date and slot |
| ClientBooking.LeastBusyWaiter | restaurantapi-main/src/main/java/com/epam/edai/run8/team12/service/ClientBookingService.java:531-562 | an answer exists exactly when the location and every listed waiter exist; an empty list answers "" |
| ClientBooking.LeastBusyIsFirstMinimum | restaurantapi-main/src/main/java/com/epam/edai/run8/team12/service/ClientBookingService.java:548-561 | the waiter chosen has the fewest bookings at that date and slot, and every waiter listed before it has strictly more |
| ClientBooking.GetLeastBusyWaiter | restaurantapi-main/src/main/java/com/epam/edai/run8/team12/service/ClientBookingService.java:531-562 | the loop returns the first least busy waiter |
| ClientBooking.SaveResponseForBooking | restaurantapi-main/src/main/java/com/epam/edai/run8/team12/service/ClientBookingService.java:65-113 | the reply and the new tables are those of the request checks followed by the booking loop |
| ClientBooking.ReserveTable | restaurantapi-main/src/main/java/com/epam/edai/run8/team12/service/ClientBookingService.java:147-292 | the while loop over slots s..e produces the reply and the tables of the loop's definition |
| ClientBooking.ReserveSlotsFrame | restaurantapi-main/src/main/java/com/epam/edai/run8/team12/service/ClientBookingService.java:194-286 | the loop changes no location, capacity or user, and only appends to waiter lists |
| ClientBooking.ReserveSlotsOutside | restaurantapi-main/src/main/java/com/epam/edai/run8/team12/service/ClientBookingService.java:194-286 | the loop touches no reservation outside the run's keys |
| ClientBooking.ReserveSlotsKeepsReserved | restaurantapi-main/src/main/java/com/epam/edai/run8/team12/service/ClientBookingService.java:201-204 | a "Reserved" record is never overwritten |
| ClientBooking.ReserveSlotsConflict | restaurantapi-main/src/main/java/com/epam/edai/run8/team12/service/ClientBookingService.java:201-204 | a 409 means some slot of the run held a "Reserved" record, and the slots before it stay booked (no rollback) |
| ClientBooking.ReserveSlotsNoConflict | restaurantapi-main/src/main/java/com/epam/edai/run8/team12/service/ClientBookingService.java:298-301 | with no "Reserved" record in the run there is no 409; "In Progress" and "Cancelled" records do not block |
| ClientBooking.ReserveSlotsStep | restaurantapi-main/src/main/java/com/epam/edai/run8/team12/service/ClientBookingService.java:194-286 | a successful run booked its first slot and went on with the rest |
| ClientBooking.StepStored | restaurantapi-main/src/main/java/com/epam/edai/run8/team12/service/ClientBookingService.java:214-277 | one step stores the customer's record under the slot's key, naming the least busy waiter, who then lists the key |
| ClientBooking.ReserveSlotsSuccess | restaurantapi-main/src/main/java/com/epam/edai/run8/team12/service/ClientBookingService.java:194-291 | on success (200) every slot of the run holds the customer's record, listed by the waiter it names |
| ClientBooking.ReserveSlotsResponses | restaurantapi-main/src/main/java/com/epam/edai/run8/team12/service/ClientBookingService.java:279-291 | on success the body has one response per slot in slot order, each naming the slot's key and its stored record |
| ClientBooking.ReserveSlotsSynced | restaurantapi-main/src/main/java/com/epam/edai/run8/team12/service/ClientBookingService.java:257-277 | a successful run keeps every active record listed by its waiter |
| ClientBooking.ReserveSlotsNo400 | restaurantapi-main/src/main/java/com/epam/edai/run8/team12/service/ClientBookingService.java:250-254 | the loop answers 400 only when the location is missing |
| ClientBooking.SaveResponseBadRequestWritesNothing | restaurantapi-main/src/main/java/com/epam/edai/run8/team12/service/ClientBookingService.java:75-107 | every 400 is answered before anything is written |
| ClientBooking.SaveResponseEndOnlyStart | restaurantapi-main/src/main/java/com/epam/edai/run8/team12/service/ClientBookingService.java:181-191 | a start time that is only a slot's end gets a 400 or a 500 and writes nothing |
| ClientBooking.SaveResponseCheckProceeds | restaurantapi-main/src/main/java/com/epam/edai/run8/team12/service/ClientBookingService.java:65-191 | a request reaches the loop only when the date and guest count parse, the guest count is positive, the table is at the location and seats the guests, the customer is a user, s <= e name the start and end texts, and the first slot starts after now on today |
| ClientBooking.SaveResponseSuccess | restaurantapi-main/src/main/java/com/epam/edai/run8/team12/service/ClientBookingService.java:147-292 | a 200 books every slot s..e for the customer ahead of time, listed by its waiter, with e − s + 1 responses |
| ClientBooking.SaveResponseKeepsReserved | restaurantapi-main/src/main/java/com/epam/edai/run8/team12/service/ClientBookingService.java:194-204 | a customer booking never overwrites a "Reserved" record |
| ClientBooking.SaveResponseSynced | restaurantapi-main/src/main/java/com/epam/edai/run8/team12/service/ClientBookingService.java:147-292 | a successful booking keeps every active record listed by its waiter |
| ClientBooking.UpdateReservationById | restaurantapi-main/src/main/java/com/epam/edai/run8/team12/service/ClientBookingService.java:391-528 | the reply and the new tables are those of the corrected update (see Findings) |
| ClientBooking.RewriteTable | restaurantapi-main/src/main/java/com/epam/edai/run8/team12/service/ClientBookingService.java:483-516 | the while loop writes the new slots as the loop's definition does, and reports where it stopped |
| ClientBooking.FinishTable | restaurantapi-main/src/main/java/com/epam/edai/run8/team12/service/ClientBookingService.java:518-523 | after the loop: the old record is deleted when it was not rewritten, and the waiter is stored with the new ids and without the old id |
| ClientBooking.UpdateRunKeys | restaurantapi-main/src/main/java/com/epam/edai/run8/team12/service/ClientBookingService.java:483-495 | the new ids are the run's keys in slot order, and exactly those |
| ClientBooking.RewriteFrame | restaurantapi-main/src/main/java/com/epam/edai/run8/team12/service/ClientBookingService.java:483-516 | the loop writes only the run's keys, removes no key, and leaves waiters, locations, capacities and users alone |
| ClientBooking.RewriteKeepsReserved | restaurantapi-main/src/main/java/com/epam/edai/run8/team12/service/ClientBookingService.java:487-489 | the loop never overwrites a "Reserved" record |
| ClientBooking.RewriteDone | restaurantapi-main/src/main/java/com/epam/edai/run8/team12/service/ClientBookingService.java:483-516 | a loop that gets through holds the updated record at every new slot, and the new ids follow the earlier ones in slot order |
| ClientBooking.RewriteStopCodes | restaurantapi-main/src/main/java/com/epam/edai/run8/team12/service/ClientBookingService.java:483-527 | the loop stops only with 409, 500, or 400 for a missing location |
| ClientBooking.RewriteConflict | restaurantapi-main/src/main/java/com/epam/edai/run8/team12/service/ClientBookingService.java:487-489 | a 409 means some new slot held a "Reserved" record; earlier slots keep the updated record and no waiter list changes |
| ClientBooking.RewriteStopsAt | restaurantapi-main/src/main/java/com/epam/edai/run8/team12/service/ClientBookingService.java:487-489 | a "Reserved" record in the run always stops the loop with 409 |
| ClientBooking.UpdateCheckProceeds | restaurantapi-main/src/main/java/com/epam/edai/run8/team12/service/ClientBookingService.java:391-481 | an update reaches the loop only for the caller's own uncancelled reservation, at the same location and date, with valid times naming slots s <= e, a positive guest count the table seats, the run not over today; the waiter is the one the record names |
| ClientBooking.UpdateRejectWritesNothing | restaurantapi-main/src/main/java/com/epam/edai/run8/team12/service/ClientBookingService.java:402-471 | every 400, 403 and 404 is answered before anything is written |
| ClientBooking.UpdateRunNo400 | restaurantapi-main/src/main/java/com/epam/edai/run8/team12/service/ClientBookingService.java:509-512 | once the location exists the loop and the step after it answer no 400, 403 or 404 |
| ClientBooking.UpdateRunRecords | restaurantapi-main/src/main/java/com/epam/edai/run8/team12/service/ClientBookingService.java:483-521 | on success every new slot holds the updated "Reserved" record, and the old record stays exactly when it is one of the new slots |
| ClientBooking.UpdateRunKeepsOthers | restaurantapi-main/src/main/java/com/epam/edai/run8/team12/service/ClientBookingService.java:483-521 | on success no reservation outside the new slots and the old key changes |
| ClientBooking.UpdateRunWaiters | restaurantapi-main/src/main/java/com/epam/edai/run8/team12/service/ClientBookingService.java:514-521 | on success the waiter's list gains the new ids and loses the old id once, and no other table changes |
| ClientBooking.UpdateSuccess | restaurantapi-main/src/main/java/com/epam/edai/run8/team12/service/ClientBookingService.java:391-528 | a 200 combines the above for the whole update: the new slots hold the updated record, the old one is gone unless rewritten, nothing else changes, and the waiter's list swaps the old id for the new ones |
| ClientBooking.UpdateSynced | restaurantapi-main/src/main/java/com/epam/edai/run8/team12/service/ClientBookingService.java:391-528 | a successful update keeps every active record listed by its waiter |
| ClientBooking.UpdateOntoOwnReservedSlotConflicts | restaurantapi-main/src/main/java/com/epam/edai/run8/team12/service/ClientBookingService.java:487-489 | a "Reserved" reservation moved onto a run containing its own slot meets itself and answers 409 |
| ClientBooking.UpdateAsWrittenDropsOldId | restaurantapi-main/src/main/java/com/epam/edai/run8/team12/service/ClientBookingService.java:518 | as written, a successful update never leaves a record under the old id |
| ClientBooking.ExampleRewritesOwnSlot | restaurantapi-main/src/main/java/com/epam/edai/run8/team12/service/ClientBookingService.java:483-516 | in the example, an "In Progress" reservation passes the checks and the loop rewrites its own slot |
| ClientBooking.UpdateOntoOwnInProgressSlot | restaurantapi-main/src/main/java/com/epam/edai/run8/team12/service/ClientBookingService.java:483-523 | as written, that update answers 200 and the reservation is gone |
| ClientBooking.UpdateKeepsOwnInProgressSlot | restaurantapi-main/src/main/java/com/epam/edai/run8/team12/service/ClientBookingService.java:483-523 | corrected, that update answers 200 and the slot holds the updated record |
| WaiterBooking.SaveBooking | restaurantapi-main/src/main/java/com/epam/edai/run8/team12/service/WaiterService.java:242-466 | the reply and the new tables are those of the request checks followed by the booking loop |
| WaiterBooking.BookSlots | restaurantapi-main/src/main/java/com/epam/edai/run8/team12/service/WaiterService.java:374-451 | the while loop over slots s..e produces the reply and the tables of the loop's definition |
| WaiterBooking.WaiterSlotsFrame | restaurantapi-main/src/main/java/com/epam/edai/run8/team12/service/WaiterService.java:374-451 | the loop changes no location, capacity or user, only appends to the acting waiter's list, and leaves every other waiter alone |
| WaiterBooking.WaiterSlotsOutside | restaurantapi-main/src/main/java/com/epam/edai/run8/team12/service/WaiterService.java:374-451 | the loop touches no reservation outside the run's keys |
| WaiterBooking.WaiterSlotsKeepActive | restaurantapi-main/src/main/java/com/epam/edai/run8/team12/service/WaiterService.java:380-386 | a "Reserved" or "In Progress" record is never overwritten |
| WaiterBooking.WaiterSlotsConflict | restaurantapi-main/src/main/java/com/epam/edai/run8/team12/service/WaiterService.java:380-386 | a 409 means some slot of the run held an active record; earlier slots stay booked and listed |
| WaiterBooking.WaiterSlotsSuccess | restaurantapi-main/src/main/java/com/epam/edai/run8/team12/service/WaiterService.java:374-456 | on success every slot holds the waiter's record and is listed, and the body holds the response for the last slot |
| WaiterBooking.WaiterSlotsSynced | restaurantapi-main/src/main/java/com/epam/edai/run8/team12/service/WaiterService.java:433-440 | a successful run keeps every active record listed by its waiter |
| WaiterBooking.WaiterSlotsStopCodes | restaurantapi-main/src/main/java/com/epam/edai/run8/team12/service/WaiterService.java:374-463 | the loop stops only with 409, 500, or 400 for a missing location |
| WaiterBooking.SlotRunCheckProceeds | restaurantapi-main/src/main/java/com/epam/edai/run8/team12/service/WaiterService.java:316-370 | passing the date, time, table and capacity checks means the date is not past, the table is at the location and seats the guests, s <= e name the start and end texts, and the run has not ended today |
| WaiterBooking.SaveBookingCheckProceeds | restaurantapi-main/src/main/java/com/epam/edai/run8/team12/service/WaiterService.java:242-370 | a booking reaches the loop only for a waiter of the location, a date both parsers accept, a positive guest count within capacity, s <= e, and a client that is a visitor or an existing customer, whose e-mail becomes the record's user |
| WaiterBooking.LenientOnlyDateFailsLate | restaurantapi-main/src/main/java/com/epam/edai/run8/team12/service/WaiterService.java:279-316 | a date the lenient formatter accepts and strict parsing refuses (such as "2025-02-30") is never booked: a bad client type still answers its own 400, and a visitor request with a positive guest count answers 500 |
| WaiterBooking.SaveBookingPartialOnlyOnConflictOrError | restaurantapi-main/src/main/java/com/epam/edai/run8/team12/service/WaiterService.java:242-463 | any message other than 409 or 500 leaves the tables unchanged |
| WaiterBooking.SaveBookingSuccess | restaurantapi-main/src/main/java/com/epam/edai/run8/team12/service/WaiterService.java:242-456 | a 200 books every requested slot for the acting waiter and returns the last slot's record, whose status reflects the clock |
| WaiterBooking.SaveBookingKeepsActive | restaurantapi-main/src/main/java/com/epam/edai/run8/team12/service/WaiterService.java:380-386 | a waiter booking never overwrites an active record |
| WaiterBooking.SaveBookingSynced | restaurantapi-main/src/main/java/com/epam/edai/run8/team12/service/WaiterService.java:242-466 | a successful booking keeps every active record listed by its waiter |
| WaiterBooking.CancelReservationById | restaurantapi-main/src/main/java/com/epam/edai/run8/team12/service/WaiterService.java:538-605 | the reply and the new tables are those of the cancellation's definition |
| WaiterBooking.CancelOutcome | restaurantapi-main/src/main/java/com/epam/edai/run8/team12/service/WaiterService.java:538-605 | a 204 happens exactly when the waiter exists, the record is "Reserved" and listed by the waiter; it then only marks that record "Cancelled" and drops one listing of it; any other reply changes nothing |
| WaiterBooking.CancelTwice | restaurantapi-main/src/main/java/com/epam/edai/run8/team12/service/WaiterService.java:556-573 | a second cancellation answers 400 |
| WaiterBooking.CancelSynced | restaurantapi-main/src/main/java/com/epam/edai/run8/team12/service/WaiterService.java:584-596 | cancelling keeps every active record listed by its waiter |
| WaiterBooking.PostponeBooking | restaurantapi-main/src/main/java/com/epam/edai/run8/team12/service/WaiterService.java:608-771 | the reply and the new tables are those of the postponement's definition |
| WaiterBooking.PostponeCheckProceeds | restaurantapi-main/src/main/java/com/epam/edai/run8/team12/service/WaiterService.java:608-725 | a postponement reaches the loop only for a waiter named on a "Reserved" record whose slot has not started, onto a date and slot ahead of the clock, a table at the waiter's location seating the guests, and one exact slot |
| WaiterBooking.PostponeRunResult | restaurantapi-main/src/main/java/com/epam/edai/run8/team12/service/WaiterService.java:727-765 | a "Reserved" target answers 409 and writes nothing; otherwise the record moves and the reply is 200 |
| WaiterBooking.PostponeSuccess | restaurantapi-main/src/main/java/com/epam/edai/run8/team12/service/WaiterService.java:608-765 | a 200 moves the record to a different key that held no "Reserved" record: the copy is "Reserved", the old key is gone, and the waiter lists the new key |
| WaiterBooking.PostponeFailureWritesNothing | restaurantapi-main/src/main/java/com/epam/edai/run8/team12/service/WaiterService.java:608-771 | every reply but 200 leaves the tables unchanged |
| WaiterBooking.PostponeConflict | restaurantapi-main/src/main/java/com/epam/edai/run8/team12/service/WaiterService.java:732-735 | a 409 happens exactly when the checks pass and the target key holds a "Reserved" record |
| WaiterBooking.PostponeOntoItselfConflicts | restaurantapi-main/src/main/java/com/epam/edai/run8/team12/service/WaiterService.java:732-735 | postponing onto the booking's own date, table and slot never succeeds |
| WaiterBooking.MovedSynced | restaurantapi-main/src/main/java/com/epam/edai/run8/team12/service/WaiterService.java:758-762 | moving a record of the acting waiter keeps every active record listed by its waiter |
| WaiterBooking.PostponeSynced | restaurantapi-main/src/main/java/com/epam/edai/run8/team12/service/WaiterService.java:608-771 | when the record names the acting waiter, a postponement keeps every active record listed; the source authorises the waiter ignoring case, and a stored waiter id that differs from the acting e-mail only in case is not covered |
| WaiterBooking.AnyTableMatches | restaurantapi-main/src/main/java/com/epam/edai/run8/team12/service/WaiterService.java:135-147 | the "Any Table" walk keeps exactly the listed keys of the wanted day and upcoming slots that are "Reserved" |
| WaiterBooking.TableMatches | restaurantapi-main/src/main/java/com/epam/edai/run8/team12/service/WaiterService.java:148-175 | the table walk keeps exactly the keys of that table and day whose slot is visited and matches |
| WaiterBooking.Listings | restaurantapi-main/src/main/java/com/epam/edai/run8/team12/service/WaiterService.java:205-234 | one response per record in order, unless the address lookup of a missing location throws |
| WaiterBooking.GetAllReservations | restaurantapi-main/src/main/java/com/epam/edai/run8/team12/service/WaiterService.java:54-202 | the reply is the one the listing's definition gives |
| WaiterBooking.MatchAnyTable | restaurantapi-main/src/main/java/com/epam/edai/run8/team12/service/WaiterService.java:135-147 | the while loop collects the "Any Table" matches |
| WaiterBooking.MatchTable | restaurantapi-main/src/main/java/com/epam/edai/run8/team12/service/WaiterService.java:148-175 | the while loop collects the specific table's matches |
| WaiterBooking.ToListings | restaurantapi-main/src/main/java/com/epam/edai/run8/team12/service/WaiterService.java:205-234 | the while loop builds the responses of the listing's definition |
| WaiterBooking.ListingsKeys | restaurantapi-main/src/main/java/com/epam/edai/run8/team12/service/WaiterService.java:205-234 | each response names the key of its record |
| WaiterBooking.ScanMatchesWanted | restaurantapi-main/src/main/java/com/epam/edai/run8/team12/service/WaiterService.java:54-175 | every record the scan keeps is wanted: on the waiter's list, "Reserved", on the day, upcoming, and at the requested table |
| WaiterBooking.AllReservationsListed | restaurantapi-main/src/main/java/com/epam/edai/run8/team12/service/WaiterService.java:54-192 | a 200 lists only wanted records, and, when the catalog order visits every slot, every wanted record; the entry set of the seven-entry `Map.of` visits each slot exactly once, so that condition always holds for the source |
| WaiterBooking.NoReservationMeansNoneWanted | restaurantapi-main/src/main/java/com/epam/edai/run8/team12/service/WaiterService.java:177-183 | the 204 "no reservation" answer comes exactly when the checks pass and no record is wanted |
| Reservations.GetAvailableTableWithSlots | restaurantapi-main/src/main/java/com/epam/edai/run8/team12/service/ReservationService.java:121-174 | the four loops compute the availability's definition: the free slots of every table with enough seats, or an exception |
| Reservations.PhasesGiveFreeSlots | restaurantapi-main/src/main/java/com/epam/edai/run8/team12/service/ReservationService.java:128-162 | after the removal loops every table of the location holds exactly its free slots |
| Reservations.InitialAvailability | restaurantapi-main/src/main/java/com/epam/edai/run8/team12/service/ReservationService.java:128-133 | every table starts with all seven slots, and seven ids per table are queued |
| Reservations.FilledSlots | restaurantapi-main/src/main/java/com/epam/edai/run8/team12/service/ReservationService.java:136-142 | the filled keys are exactly the queued keys holding a "Reserved" or "In Progress" record |
| Reservations.RemoveFilled | restaurantapi-main/src/main/java/com/epam/edai/run8/team12/service/ReservationService.java:145 | a slot is removed from a table exactly when a filled key names that table and slot |
| Reservations.RemoveEnded | restaurantapi-main/src/main/java/com/epam/edai/run8/team12/service/ReservationService.java:153-162 | every slot ended before now is removed from every table |
| Reservations.FilterByCapacity | restaurantapi-main/src/main/java/com/epam/edai/run8/team12/service/ReservationService.java:165-171 | exactly the tables with at least the requested seats are kept; a table without a capacity record throws |
| Reservations.GetAvailableTables | restaurantapi-main/src/main/java/com/epam/edai/run8/team12/service/ReservationService.java:61-115 | the reply is the one the availability query's definition gives |
| Reservations.AvailabilityExact | restaurantapi-main/src/main/java/com/epam/edai/run8/team12/service/ReservationService.java:121-174 | the tables offered are exactly the location's tables with enough seats, and a slot is offered exactly when it has no active record and has not ended today |
| Reservations.BookedSlotNotOffered | restaurantapi-main/src/main/java/com/epam/edai/run8/team12/service/ReservationService.java:136-145 | an active record hides its slot; a cancelled one does not |
| Reservations.AvailableTablesBody | restaurantapi-main/src/main/java/com/epam/edai/run8/team12/service/ReservationService.java:61-115 | a 200 follows valid input and lists, per table with enough seats, exactly the labels of its free slots |
| Reservations.HistoryExact | restaurantapi-main/src/main/java/com/epam/edai/run8/team12/service/ReservationService.java:179-202 | the history lists exactly the user's records with their status, guests and address, and answers 204 exactly when there are none |
| Reservations.HistoryIgnoresCase | restaurantapi-main/src/main/java/com/epam/edai/run8/team12/service/ReservationService.java:181-186 | the user's e-mail is matched ignoring case |
| Reservations.DeleteReservationById | restaurantapi-main/src/main/java/com/epam/edai/run8/team12/service/ReservationService.java:207-250 | the reply and the new tables are those of the cancellation's definition |
| Reservations.DeleteAccepted | restaurantapi-main/src/main/java/com/epam/edai/run8/team12/service/ReservationService.java:207-250 | a 200 happens exactly for the owner's uncancelled reservation within the time rule whose waiter exists |
| Reservations.DeleteRefusedWritesNothing | restaurantapi-main/src/main/java/com/epam/edai/run8/team12/service/ReservationService.java:210-248 | every other message leaves the tables unchanged |
| Reservations.DeleteCancels | restaurantapi-main/src/main/java/com/epam/edai/run8/team12/service/ReservationService.java:225-230 | a 200 marks only that record "Cancelled", drops one listing of it from its waiter, and changes nothing else |
| Reservations.CancelByCustomerEffect | restaurantapi-main/src/main/java/com/epam/edai/run8/team12/service/ReservationService.java:225-230 | the cancellation step marks the record "Cancelled" and drops one listing from the waiter |
| Reservations.DeleteTooLate | restaurantapi-main/src/main/java/com/epam/edai/run8/team12/service/ReservationService.java:233-248 | on the booking day, from 30 minutes before the start on, the answer is 400 and nothing changes |
| Reservations.DeleteTwice | restaurantapi-main/src/main/java/com/epam/edai/run8/team12/service/ReservationService.java:218-220 | a second cancellation answers 408 |
| Reservations.DeleteSynced | restaurantapi-main/src/main/java/com/epam/edai/run8/team12/service/ReservationService.java:207-250 | deleting keeps every active record listed by its waiter |
| Reservations.CancelByCustomerSynced | restaurantapi-main/src/main/java/com/epam/edai/run8/team12/service/ReservationService.java:225-230 | the cancellation step keeps every active record listed by its waiter |
| Reservations.DeleteReopensSlot | restaurantapi-main/src/main/java/com/epam/edai/run8/team12/service/ReservationService.java:136-145 | after a 200 the cancelled slot is offered again whenever its table has enough seats and the slot has not ended |
| Reservations.DeleteKeepsHistory | restaurantapi-main/src/main/java/com/epam/edai/run8/team12/service/ReservationService.java:181-186 | after a 200 the history still lists the reservation, now "Cancelled" |
| Users.ValidNameExact | restaurantapi-main/src/main/java/com/epam/edai/run8/team12/service/UserService.java:239-241 | a name is valid exactly when it has 1 to 50 characters, each an ASCII letter, an apostrophe or a hyphen |
| Users.ValidEmailMatchesPattern | restaurantapi-main/src/main/java/com/epam/edai/run8/team12/service/UserService.java:243-245 | a valid e-mail splits into the pattern's local part, "@", domain, "." and at least two letters |
| Users.PatternEmailIsValid | restaurantapi-main/src/main/java/com/epam/edai/run8/team12/service/UserService.java:243-245 | every such split gives a valid e-mail |
| Users.EmailExamples | restaurantapi-main/src/main/java/com/epam/edai/run8/team12/service/UserService.java:243-245 | "ann.lee@mail.example.com" is valid; "ann@mail.c" is not |
| Users.ValidPasswordExact | restaurantapi-main/src/main/java/com/epam/edai/run8/team12/service/UserService.java:247-253 | a password is valid exactly when it has 8 to 16 characters, an upper-case letter, a lower-case letter, a digit, a special character and no line terminator |
| Users.PasswordAccepted | restaurantapi-main/src/main/java/com/epam/edai/run8/team12/service/UserService.java:247-253 | "Passw0rd!" is valid |
| Users.PasswordNewlineRefused | restaurantapi-main/src/main/java/com/epam/edai/run8/team12/service/UserService.java:247-253 | "Passw0rd!" followed by a newline is refused |
| Users.RegisterDecision | restaurantapi-main/src/main/java/com/epam/edai/run8/team12/service/UserService.java:38-91 | each 400 message happens exactly when its check is the first to fail; a 409 happens exactly for an existing account; the role is WAITER exactly for a listed waiter, else CUSTOMER |
| Users.RegisterTwiceConflicts | restaurantapi-main/src/main/java/com/epam/edai/run8/team12/service/UserService.java:75-103 | registering the same e-mail again after a stored password answers 409 |
| Users.RegisterOverPasswordless | restaurantapi-main/src/main/java/com/epam/edai/run8/team12/service/UserService.java:75-91 | a listed waiter without a password registers as WAITER |
| Users.SignIn | restaurantapi-main/src/main/java/com/epam/edai/run8/team12/service/UserService.java:146-236 | invalid e-mail and blank password each give their own 400; a 200 needs an account and authentication, and returns the stored name and role, with the location exactly for a waiter |
| Users.SignInAccepted | restaurantapi-main/src/main/java/com/epam/edai/run8/team12/service/UserService.java:146-236 | sign-in succeeds exactly for a valid e-mail, a non-blank password, an account, authentication, and a waiter record when the user is a waiter |
| Users.RegisterThenSignIn | restaurantapi-main/src/main/java/com/epam/edai/run8/team12/service/UserService.java:93-103 | a customer who has just registered signs in with the name and role registration stored |
| Sorting.SortBy | restaurantapi-main/src/main/java/com/epam/edai/run8/team12/service/LocationService.java:176 | the result is a permutation of the input, sorted by the key in the chosen direction |
| Sorting.SortSortedIsIdentity | restaurantapi-main/src/main/java/com/epam/edai/run8/team12/service/LocationService.java:176 | sorting a list already in order changes nothing (the sort is stable) |
| Sorting.InsertWithKey | restaurantapi-main/src/main/java/com/epam/edai/run8/team12/service/LocationService.java:176 | inserting into a sorted list places the new element behind every element with its key |
| Sorting.SortByStable | restaurantapi-main/src/main/java/com/epam/edai/run8/team12/service/LocationService.java:172-176 | for every key, the elements with that key come out of the sort in their input order, in either direction |
| Sorting.WithKeyPrefix | restaurantapi-main/src/main/java/com/epam/edai/run8/team12/repository/DishRepository.java:28 | the elements with one key in a prefix are the first elements with that key in the whole list |
| Sorting.TiesKeepOrderBothWays | restaurantapi-main/src/main/java/com/epam/edai/run8/team12/service/LocationService.java:172-176 | for two elements with equal keys, descending gives the same order as ascending, so descending is not the reverse of ascending |
| FeedbackPaging.Kept | restaurantapi-main/src/main/java/com/epam/edai/run8/team12/service/LocationService.java:82-87 | the kept feedbacks are exactly the stored ones of the wanted type, in list order |
| FeedbackPaging.KeptAppend | restaurantapi-main/src/main/java/com/epam/edai/run8/team12/service/LocationService.java:82-87 | the filter works on each part of the list separately |
| FeedbackPaging.ParseSortParts | restaurantapi-main/src/main/java/com/epam/edai/run8/team12/service/LocationService.java:144-157 | accepted exactly for two parts with a basis of rating or date and an order of asc or desc, each trimmed and compared ignoring case; otherwise an IllegalArgumentException whose message is the format's exactly for a part count other than two, the basis's exactly for a bad basis, and the order's exactly for a good basis and a bad order |
| FeedbackPaging.TrailingCommaIgnored | restaurantapi-main/src/main/java/com/epam/edai/run8/team12/service/LocationService.java:144-147 | a trailing comma does not change how criteria with a comma are read |
| FeedbackPaging.DefaultCriteria | restaurantapi-main/src/main/java/com/epam/edai/run8/team12/service/LocationService.java:140-142 | a missing criterion sorts by ascending rating |
| FeedbackPaging.NoCommaIsFormatError | restaurantapi-main/src/main/java/com/epam/edai/run8/team12/service/LocationService.java:144-147 | criteria without a comma are a format error |
| FeedbackPaging.SortFeedbacks | restaurantapi-main/src/main/java/com/epam/edai/run8/team12/service/LocationService.java:159-176 | the result is a permutation of the feedbacks, sorted by the chosen key and direction |
| FeedbackPaging.DirectionOf | restaurantapi-main/src/main/java/com/epam/edai/run8/team12/service/LocationService.java:186-187 | an order text that reads "asc" or "desc" upper-cases to "ASC" or "DESC", and counts as ascending exactly for "asc" |
| FeedbackPaging.SortDtoAgrees | restaurantapi-main/src/main/java/com/epam/edai/run8/team12/service/LocationService.java:184-196 | for accepted criteria the direction is "ASC" or "DESC" and `ascending` holds exactly for an ascending sort |
| FeedbackPaging.TotalPages | restaurantapi-main/src/main/java/com/epam/edai/run8/team12/service/LocationService.java:109 | the page count is the ceiling of the element count over the page size |
| FeedbackPaging.PageStart | restaurantapi-main/src/main/java/com/epam/edai/run8/team12/service/LocationService.java:93-96 | the start is min(page * size, n) |
| FeedbackPaging.PageContentIsSlice | restaurantapi-main/src/main/java/com/epam/edai/run8/team12/service/LocationService.java:93-100 | the content is the slice [start, min(start + size, n)) |
| FeedbackPaging.SortFeedbacksStable | restaurantapi-main/src/main/java/com/epam/edai/run8/team12/service/LocationService.java:159-176 | feedbacks of equal rating or date keep their stored order under both directions |
| FeedbackPaging.PagedFeedbackContent | restaurantapi-main/src/main/java/com/epam/edai/run8/team12/service/LocationService.java:62-137 | each exception happens exactly when its check is the first to fail, in the source's order, with its own exception type and message; the page is cut with the corrected exact arithmetic (see Findings) |
| FeedbackPaging.PageIsBuiltFromKept | restaurantapi-main/src/main/java/com/epam/edai/run8/team12/service/LocationService.java:82-100 | an accepted request pages the location's feedbacks of the wanted type, sorted by the criteria |
| FeedbackPaging.PageContentBounds | restaurantapi-main/src/main/java/com/epam/edai/run8/team12/service/LocationService.java:93-100 | the page holds at most `size` elements, exactly those from page * size on, and is empty exactly when that is at or past the end |
| FeedbackPaging.EmptyExactlyPastLastPage | restaurantapi-main/src/main/java/com/epam/edai/run8/team12/service/LocationService.java:98-112 | a page is empty exactly from the reported page count on |
| FeedbackPaging.PagesCoverSorted | restaurantapi-main/src/main/java/com/epam/edai/run8/team12/service/LocationService.java:93-100 | element k is at position k % size of page k / size |
| FeedbackPaging.PageMetadata | restaurantapi-main/src/main/java/com/epam/edai/run8/team12/service/LocationService.java:107-134 | totalElements counts the filtered list, totalPages is its ceiling, first, last and empty are as defined, offset is the start, and the page holds at most `size` elements |
| FeedbackPaging.PageFromSorted | restaurantapi-main/src/main/java/com/epam/edai/run8/team12/service/LocationService.java:90-100 | a page is a sorted run of the filtered feedbacks |
| FeedbackPaging.PageOfWantedType | restaurantapi-main/src/main/java/com/epam/edai/run8/team12/service/LocationService.java:82-105 | every feedback on the page is of the requested type |
| FeedbackPaging.Wrap32 | restaurantapi-main/src/main/java/com/epam/edai/run8/team12/service/LocationService.java:93 | the value is in Java's int range and congruent to the exact one modulo 2^32 |
| FeedbackPaging.AsWrittenAgreesWithoutOverflow | restaurantapi-main/src/main/java/com/epam/edai/run8/team12/service/LocationService.java:93-100 | without overflow, the code's int arithmetic gives the exact page |
| FeedbackPaging.OverflowServesFirstPage | restaurantapi-main/src/main/java/com/epam/edai/run8/team12/service/LocationService.java:93-100 | page 2^30 of size 4 over ten feedbacks serves the first page, although that page is past the end |
| FeedbackPaging.OverflowThrows | restaurantapi-main/src/main/java/com/epam/edai/run8/team12/service/LocationService.java:93-100 | page 2^29 of size 4 throws from `subList` |
| Dishes.FindById | restaurantapi-main/src/main/java/com/epam/edai/run8/team12/repository/DishRepository.java:19-23 | nothing is found exactly when no item has the id; what is found has the id |
| Dishes.FindByIdFindsIt | restaurantapi-main/src/main/java/com/epam/edai/run8/team12/repository/DishRepository.java:19-23 | with unique ids, the item found is the one stored under the id |
| Dishes.GetDishById | restaurantapi-main/src/main/java/com/epam/edai/run8/team12/service/DishService.java:21-26 | a RuntimeException exactly when no dish has the id; otherwise the dish with that id |
| Dishes.FindByDishType | restaurantapi-main/src/main/java/com/epam/edai/run8/team12/repository/DishRepository.java:32-36 | only dishes of the type are kept, and every dish of the type is kept |
| Dishes.FindByDishTypeAppend | restaurantapi-main/src/main/java/com/epam/edai/run8/team12/repository/DishRepository.java:32-36 | the filter keeps scan order: it works on each part of the scan separately |
| Dishes.FindByDishTypeCounts | restaurantapi-main/src/main/java/com/epam/edai/run8/team12/repository/DishRepository.java:32-36 | each dish of the type is kept as often as the scan holds it, and no other dish is kept |
| Dishes.FindAllSortedByPopularity | restaurantapi-main/src/main/java/com/epam/edai/run8/team12/repository/DishRepository.java:25-30 | at most four dishes, in non-increasing order count, taken from the table, and none left out has a higher count than the last one kept |
| Dishes.PopularLeadsWithMostOrdered | restaurantapi-main/src/main/java/com/epam/edai/run8/team12/repository/DishRepository.java:25-30 | a non-empty table gives a non-empty list whose first dish has the highest order count of the table |
| Dishes.ParseDishSort | restaurantapi-main/src/main/java/com/epam/edai/run8/team12/service/DishService.java:46-59 | accepted exactly for two parts with a basis of price or popularity and an order of asc or desc, trimmed and compared ignoring case; otherwise an IllegalArgumentException whose message is the format's exactly for a part count other than two, the basis's exactly for a bad basis, and the order's exactly for a good basis and a bad order |
| Dishes.GetSelectedDishes | restaurantapi-main/src/main/java/com/epam/edai/run8/team12/service/DishService.java:34-82 | a bad type is refused first; no dish of the type answers an empty list before the criteria are read; any other refusal is the criteria's; a valid type with accepted criteria is always answered |
| Dishes.SelectedKeepsTies | restaurantapi-main/src/main/java/com/epam/edai/run8/team12/service/DishService.java:72-79 | dishes of equal price or popularity keep their scan order in an accepted selection, in either direction |
| Dishes.PopularTiesInScanOrder | restaurantapi-main/src/main/java/com/epam/edai/run8/team12/repository/DishRepository.java:25-30 | among dishes of equal popularity, those kept in the top four are the first the scan met |
| Dishes.SelectedIsSortedPermutation | restaurantapi-main/src/main/java/com/epam/edai/run8/team12/service/DishService.java:61-81 | an accepted selection is a permutation of the type's dishes, sorted by the chosen key and direction |
| Dishes.SelectedAreOfType | restaurantapi-main/src/main/java/com/epam/edai/run8/team12/service/DishService.java:35-44 | every selected dish is of the type, and every dish of the type is selected |
| Dishes.SelectedKeepCounts | restaurantapi-main/src/main/java/com/epam/edai/run8/team12/service/DishService.java:41-81 | a selected dish is selected as often as the table holds it |

## Left out

- Each DynamoDB table is a map field of `Store.Tables`; the SDK calls, the repositories and the
  configuration are not part of this model. A scanned table is a sequence in scan order or a map
  keyed by id.
- Only sequential calls are modelled. The gap between the reservation check and the write is a
  race between concurrent calls, which the model does not capture. A run of writes stopped by a
  conflict keeps its earlier writes, as the code does.
- The clock is a parameter `Clock(today, now)`, with today as a day number and now in nanoseconds
  since midnight. One clock stands for both the system zone and Asia/Kolkata. `bookedAt` is a
  value passed in and copied unchanged.
- `LocalDate.parse` is modelled by its outcome (`DateIn`: a day or a failure). `saveBooking`
  parses its date twice, first with the lenient "yyyy-MM-dd" formatter and later strictly;
  `WaiterBooking.BookingDate` holds both outcomes, and which texts each parser accepts is an
  input, not modelled.
- Reservations.GetAvailableTables: the date is checked by `TimeSlotUtil.validateDateFormat`
  (ReservationService.java line 69), which is not part of this model, and then read by
  `LocalDate.parse` outside any catch (line 73). The model takes one `DateIn` outcome for both,
  so it assumes they accept the same texts. A text the validator accepts and strict ISO parsing
  refuses would throw `DateTimeParseException` from the source; the model has no such path.
- Java's character classes are Unicode; the model uses their ASCII part. This applies to
  `toLowerCase`, `toUpperCase`, `isWhitespace` and the validators' letter and digit classes.
- A null field is modelled as an absent map entry or an empty text. Dereferencing a missing
  record ends in the catch-all 500 or a thrown exception; the model follows each branch where
  the code reaches it.
- JWT generation, BCrypt hashing and `authenticationManager` are out. The password check is the
  parameter `authenticated`, and the encoded password is a parameter `encoded`.
- Users.RegisterDecision: the waiter-record writes of `registerUser` (UserService.java lines
  106-127) and its catch-all 500 are not modelled. Only the decision and the user record written
  are.
- `FeedbackService` and `getFeedbackId` are not part of this model.
- Ratings and prices are doubles, and feedback dates are parsed texts. The model uses integer
  sort keys in their place. A price text that does not parse as a number is not modelled.
- FeedbackPaging.PagedFeedbackContent: a stored feedback date that `LocalDateTime.parse` refuses
  makes the date comparator throw `DateTimeParseException` while sorting
  (LocationService.java:165-166); the model's date key always exists, so that exception is not
  modelled.
- FeedbackPaging.PagedFeedbackContent: the page is cut with exact arithmetic, and the reported
  offset is the exact start. The source's 32-bit `page * size` and `start + size`, which can
  serve the first page or throw `IndexOutOfBoundsException` for a huge page number, are modelled
  separately by `FeedbackPaging.PageContentAsWritten` (see Findings).
- The model keys records by the tuple `Key(date, location, table, slot)`, which is injective.
  The source's id is the concatenation of those texts, and two keys can give the same id
  (`Keys.IdsCanCollide`). The model does not reproduce a spurious 409 across locations or the
  lookup of another location's table in `getAvailableTableWithSlots` (ReservationService.java
  lines 137-145) that such a collision causes.
- `Store.Status` has no "Finished" value. `FeedbackService` reads that status, and it is not part
  of this model; no modelled operation writes it.
- `Map.of` iteration order is unspecified. `getAllReservations` takes the slot visiting order as
  a parameter (`order`). The availability result is a map from table to set of slots, so it
  carries no order.
- WaiterBooking.PostponeSynced: stated only for a record whose waiter id equals the acting
  e-mail exactly; the source accepts a waiter id equal to it ignoring case (WaiterService.java
  line 630), and that case is not covered.
- ClientBooking.LeastBusyWaiter: its own contract states only when an answer exists and the
  empty-list case. The minimum property is stated in ClientBooking.LeastBusyIsFirstMinimum.
- Logging, `System.out` output and the HTTP mapping of the controllers are not modelled.

## Findings

| source | as written | input that shows it | evidently intended | confidence | as-written member | corrected member |
|---|---|---|---|---|---|---|
| restaurantapi-main/src/main/java/com/epam/edai/run8/team12/service/LocationService.java:93-100 | `int start = page * size` and `start + size` are computed in 32-bit `int` and wrap around | page = 2^30, size = 4, ten feedbacks: the product wraps to 0, so the first page is served; page = 2^29 wraps to −2^31, so `subList` throws | a page past the end is empty | not executed | FeedbackPaging.PageContentAsWritten (FeedbackPaging.OverflowServesFirstPage, FeedbackPaging.OverflowThrows) | FeedbackPaging.PageContent (FeedbackPaging.PageContentBounds, FeedbackPaging.EmptyExactlyPastLastPage) |
| restaurantapi-main/src/main/java/com/epam/edai/run8/team12/service/ClientBookingService.java:483-518 | after the loop rewrites the new slots, `deleteItem(id)` deletes the old key even when the loop has just written the updated record under that key | an "In Progress" reservation at slot 2 updated onto the run 2..2 of the same table passes every check; the loop writes the updated record at its own key; the delete then removes it, and the reply is 200 | the updated reservation remains at that key | not executed | ClientBooking.UpdateReservationAsWritten (ClientBooking.UpdateAsWrittenDropsOldId, ClientBooking.UpdateOntoOwnInProgressSlot) | ClientBooking.UpdateReservationEffect (ClientBooking.UpdateKeepsOwnInProgressSlot, ClientBooking.UpdateSuccess) |
