/** The messages the services answer with. Each reply names its message by
    a constructor here; `Wording` gives the text the service returns. */
module Notes {
  datatype Note =
    ReservationUpdated | BookingTimeNotValid | PastDate | CancelledNotModifiable | UpdatePastDate
    | GuestNumberNotPositive | GuestNumbersNotPositive | InvalidGuestNumber | InvalidTimeFormat
    | NoOfGuestsOverCapacity | PastSlot | StartNotBeforeEnd | StartAfterEnd | SlotPassed
    | WrongTimeSlot | DateNotModifiable | LocationNotModifiable | NoSuchLocation
    | GuestsOverCapacity | NotYourReservation | ReservationNotFound
    | TableNotFound(locationId: string) | TableAlreadyReserved | ReserveFailed | UpdateFailed
    | ReservationCancelled | PostponePastReservation | PostponeStartedSlot | PostponeToPastDate
    | PostponeToPastSlot | InvalidCurrentSlot | InvalidDateFormat | InvalidNewDateFormat
    | InvalidTimeFormatHint | OnlyReservedPostponed | ReservationDoesNotExist | NotCancellable
    | TableNotAtLocation | BadClientType | NoSuchLocationId | NoReservation | GuestsAboveCapacity
    | NoMatchingSlot | NotAWaiter | NotAuthorisedToBook | NotAuthorizedToPostpone
    | NotAuthorizedToCancel | NoSuchCustomer | NoSuchWaiter | TableAlreadyBooked
    | WaiterReserveFailed | NoWaiterWithEmail | DateFormatNotCorrect | PastTravel | PreviousSlots
    | NoSlotsAfterTime | RetrieveFailed | TableNotOfLocation | NoReservationExist
    | DataRequired | BadDateFormat | TravelToPast | NoLocationWithId | NoSlotsAvailable
    | NoHistory | HistoryFailed | NotFoundForId | NotAuthorizedToDelete | AlreadyCancelled
    | CancelledByCustomer | BadRequest
    | InvalidFirstName | InvalidLastName | InvalidEmail | WeakPassword | UserExists | Registered
    | EmailNotValid | PasswordEmpty | BadCredentials | SignInFailed
    | BadFeedbackType | BadPagination(page: int, size: int) | LocationNotFound(locationId: string)
    | FeedbackSortFormat | FeedbackSortBasis | SortOrder
    | BadDishType | DishSortFormat | DishSortBasis | DishNotFound(dishId: string)

  function Wording(n: Note): string {
    match n
    case ReservationUpdated => "Reservation updated successfully"
    case BookingTimeNotValid => "Booking date and time is not valid"
    case PastDate => "Can't book in the past date"
    case CancelledNotModifiable => "Cannot modify a cancelled reservation"
    case UpdatePastDate => "Cannot update reservation for a past date"
    case GuestNumberNotPositive => "Guest number must be greater than 0"
    case GuestNumbersNotPositive => "Guest numbers must be greater than 0"
    case InvalidGuestNumber => "Invalid number of guests"
    case InvalidTimeFormat => "Invalid time format"
    case NoOfGuestsOverCapacity => "No of guests cannot be more than the table capacity"
    case PastSlot => "Sorry, can't book the past slot"
    case StartNotBeforeEnd => "Start time must be before end time"
    case StartAfterEnd => "Start time of slot can't be after End time"
    case SlotPassed => "Time slot has already passed"
    case WrongTimeSlot => "Wrong time slot selected"
    case DateNotModifiable => "date cannot be modified"
    case LocationNotModifiable => "location cannot be modified"
    case NoSuchLocation => "locationId doesn't exist!"
    case GuestsOverCapacity => "number of guests cannot be more than the table capacity"
    case NotYourReservation => "You are not authorized to modify this reservation."
    case ReservationNotFound => "Reservation not found for given ID"
    case TableNotFound(locationId) => "Table not found for location: " + locationId
    case TableAlreadyReserved => "Table already Reserved!"
    case ReserveFailed => "Error reserving the table"
    case UpdateFailed => "Something went wrong while updating the reservation"
    case ReservationCancelled => "Reservation cancelled successfully"
    case PostponePastReservation => "Cannot postpone a past reservation"
    case PostponeStartedSlot => "Cannot postpone a past-time slot today"
    case PostponeToPastDate => "Cannot postpone to a past date"
    case PostponeToPastSlot => "Cannot postpone to a past slot today"
    case InvalidCurrentSlot => "Invalid current reservation slot"
    case InvalidDateFormat => "Invalid date format. Expected yyyy-MM-dd"
    case InvalidNewDateFormat => "Invalid new date format"
    case InvalidTimeFormatHint => "Invalid time format. Use HH:mm (e.g., 14:00)"
    case OnlyReservedPostponed => "Only 'Reserved' bookings can be postponed"
    case ReservationDoesNotExist => "Reservation does not exist"
    case NotCancellable => "Reservation not available for cancellation"
    case TableNotAtLocation => "Table does not exist for the location"
    case BadClientType => "client type can be either existing or visitor"
    case NoSuchLocationId => "locationId doesn't exists!"
    case NoReservation => "no reservation exists"
    case GuestsAboveCapacity => "number of guests can't be more than table capacity"
    case NoMatchingSlot => "timeFrom and timeTo do not match any valid slot"
    case NotAWaiter => "not a waiter"
    case NotAuthorisedToBook => "you are not authorised to do this reservation"
    case NotAuthorizedToPostpone => "Not authorized to postpone this reservation"
    case NotAuthorizedToCancel => "Waiter unauthorized to cancel this reservation"
    case NoSuchCustomer => "Customer doesn't exist"
    case NoSuchWaiter => "Waiter not found"
    case TableAlreadyBooked => "table already booked!"
    case WaiterReserveFailed => "Error reserving the table "
    case NoWaiterWithEmail => "no waiter exists with this email id"
    case DateFormatNotCorrect => "date format is not correct"
    case PastTravel => "can't travel in past"
    case PreviousSlots => "can't check for previous slots"
    case NoSlotsAfterTime => "No slots available after the given time"
    case RetrieveFailed => "Error retrieving reservations"
    case TableNotOfLocation => "this table doesn't belong to the location"
    case NoReservationExist => "no reservation exist"
    case DataRequired => "Data required"
    case BadDateFormat => "Invalid date format"
    case TravelToPast => "Sorry, can't travel to the past!"
    case NoLocationWithId => "sorry no location with this id available"
    case NoSlotsAvailable => "Sorry, no slots available"
    case NoHistory => "No reservation history found"
    case HistoryFailed => "Error retrieving reservation history"
    case NotFoundForId => "Reservation not found for given id"
    case NotAuthorizedToDelete => "You are not authorized to delete this reservation."
    case AlreadyCancelled => "Reservation already cancelled"
    case CancelledByCustomer => "Reservation Cancelled"
    case BadRequest => "Bad Request!"
    case InvalidFirstName => "Invalid first name"
    case InvalidLastName => "Invalid last name"
    case InvalidEmail => "Invalid email"
    case WeakPassword => "Password must be 8-16 characters long and include at least one uppercase letter, one lowercase letter, one number, and one special character."
    case UserExists => "A user with this email address already exists."
    case Registered => "User registered successfully!"
    case EmailNotValid => "email is not valid"
    case PasswordEmpty => "Password is empty!"
    case BadCredentials => "Invalid email or password"
    case SignInFailed => "Error while signing"
    case BadFeedbackType => "type must be either 'service' or 'cuisine'"
    case BadPagination(page, size) =>
      "Invalid pagination parameters: page=" + IntText(page) + ", size=" + IntText(size)
    case LocationNotFound(locationId) => "Location not found with id: " + locationId
    case FeedbackSortFormat => "sort criteria must be in format 'basis,order'"
    case FeedbackSortBasis => "sort basis must be 'rating' or 'date'"
    case SortOrder => "sort order must be 'asc' or 'desc'"
    case BadDishType => "DishType must be one of : Appetizers, Main Courses, Desserts"
    case DishSortFormat => "Sort criteria must be in format 'basis,order'"
    case DishSortBasis => "sort basis must be 'price' or 'popularity'"
    case DishNotFound(dishId) => "Dish not found with ID: " + dishId
  }

  /** `Integer.toString`. */
  function IntText(i: int): string {
    if i < 0 then "-" + DecimalText(-i) else DecimalText(i)
  }

  function DecimalText(n: nat): string {
    (if n >= 10 then DecimalText(n / 10) else "") + [('0' as int + n % 10) as char]
  }

  /** What a service that reports failure by throwing returns: its value, or
      the exception class with the message it carries. */
  datatype Outcome<T> = Done(value: T) | Raised(exception: string, note: Note)
}
