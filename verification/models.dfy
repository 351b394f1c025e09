/**
 * The records of the rooms application (rooms/models.py), lifted out of the
 * ORM. Calendar dates are day numbers, timestamps are integer seconds, and
 * prices are integer cents. Every record keeps the id of its owning tenant.
 */
module Models {
  import opened Base

  /** A calendar date, as a day number. */
  type Day = int

  /** The four values of `Room.state`; `Available` is the column default. */
  datatype RoomState = Available | Occupied | Maintenance | Cleaning

  const DefaultRoomState: RoomState := Available

  datatype Room = Room(
    id: nat,
    owner: nat,
    number: string,
    roomType: string,
    pricePerNight: nat,
    state: RoomState)

  datatype Guest = Guest(owner: nat, firstName: string, lastName: string, email: string)

  /** A guest's display name: first and last name joined by one space. */
  function FullName(g: Guest): string {
    g.firstName + " " + g.lastName
  }

  /**
   * A booking together with the room it was joined with when it was read.
   * `totalPrice` is in cents.
   */
  datatype Booking = Booking(
    id: nat,
    guest: Guest,
    room: Room,
    checkIn: Day,
    checkOut: Day,
    totalPrice: int,
    isActive: bool,
    checkedIn: bool)

  /** `MaintenanceTask.priority`: 1 Critical, 2 High, 3 Medium, 4 Low. */
  type Priority = p: int | 1 <= p <= 4 witness 3

  const DefaultPriority: Priority := 3

  datatype TaskStatus = Pending | Completed

  const DefaultTaskStatus: TaskStatus := Pending

  /** `createdAt` is optional because the sort guards against a missing timestamp. */
  datatype MaintenanceTask = MaintenanceTask(
    id: nat,
    roomNumber: string,
    description: string,
    priority: Priority,
    status: TaskStatus,
    createdAt: Option<int>)

  datatype RoomServiceOrder = RoomServiceOrder(id: nat, roomNumber: string, item: string, timestamp: int)

  /** The `(user, number)` uniqueness constraint of the room table. */
  predicate UniqueNumbers(rooms: seq<Room>) {
    forall i, j :: 0 <= i < j < |rooms| && rooms[i].owner == rooms[j].owner ==> rooms[i].number != rooms[j].number
  }

  /** Room ids are primary keys. */
  predicate UniqueIds(rooms: seq<Room>) {
    forall i, j :: 0 <= i < j < |rooms| ==> rooms[i].id != rooms[j].id
  }

  /**
   * A stay from `checkIn` to `checkOut` occupies the nights that begin on
   * the days `checkIn .. checkOut - 1`; `d` is one of them.
   */
  predicate NightIn(d: Day, checkIn: Day, checkOut: Day) {
    checkIn <= d < checkOut
  }

  /** The two rules a booking's dates must meet. */
  datatype DateError = CheckOutNotAfterCheckIn | CheckInInPast

  /**
   * `Booking.clean`: with both dates present, the check-out must fall strictly
   * after the check-in (checked first), and the check-in may not lie before
   * today. A missing date skips both checks.
   */
  function CleanDates(checkIn: Option<Day>, checkOut: Option<Day>, today: Day): (r: Outcome<DateError>)
    ensures r.Pass? <==> checkIn.None? || checkOut.None? || (checkIn.value < checkOut.value && today <= checkIn.value)
    ensures r == Fail(CheckOutNotAfterCheckIn) <==> checkIn.Some? && checkOut.Some? && checkOut.value <= checkIn.value
    ensures r == Fail(CheckInInPast) ==> checkIn.Some? && checkIn.value < today
  {
    match (checkIn, checkOut)
    case (Some(cin), Some(cout)) =>
      if cout <= cin then Fail(CheckOutNotAfterCheckIn)
      else if cin < today then Fail(CheckInInPast)
      else Pass
    case _ => Pass
  }
}
