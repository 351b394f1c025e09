/**
 * The booking path of `create_booking` (rooms/views.py): the form's date
 * validation, ownership of the room, the view's own two date rules, the
 * overlap test against the room's active bookings on half-open stays, and
 * the price of the stay.
 */
module Bookings {
  import opened Base
  import opened Models

  /**
   * The reasons `create_booking` refuses a request, in the order they are
   * tested: the form's validation (`BookingForm.clean` and `Booking.clean`),
   * then the room's owner, then the view's date rules, then availability.
   */
  datatype BookingError = FormInvalid(formRule: DateError) | InvalidRoom | BadDates(rule: DateError) | RoomNotAvailable

  /** The submitted form fields: the guest, the chosen room and the two dates. */
  datatype BookingRequest = BookingRequest(guest: Guest, room: Room, checkIn: Day, checkOut: Day)

  /**
   * The overlap test of `create_booking` on stays `[aIn, aOut)` and
   * `[bIn, bOut)`. Stays sharing a night always overlap; for stays of at
   * least one night the converse holds too, and the first shared night is
   * the later check-in.
   */
  predicate Overlaps(aIn: Day, aOut: Day, bIn: Day, bOut: Day)
    ensures (exists d :: NightIn(d, aIn, aOut) && NightIn(d, bIn, bOut)) ==> Overlaps(aIn, aOut, bIn, bOut)
    ensures aIn < aOut && bIn < bOut && Overlaps(aIn, aOut, bIn, bOut) ==>
      var first := if aIn < bIn then bIn else aIn;
      NightIn(first, aIn, aOut) && NightIn(first, bIn, bOut)
  {
    aIn < bOut && aOut > bIn
  }

  /** Overlap does not depend on which stay is named first. */
  lemma OverlapSymmetric(aIn: Day, aOut: Day, bIn: Day, bOut: Day)
    ensures Overlaps(aIn, aOut, bIn, bOut) <==> Overlaps(bIn, bOut, aIn, aOut)
  {
  }

  /**
   * Some active booking of the room overlaps the stay `[checkIn, checkOut)`.
   * When every stay involved lasts at least one night, that is the same as
   * some active booking of the room sharing a night with the stay.
   */
  predicate Conflicts(existing: seq<Booking>, roomId: nat, checkIn: Day, checkOut: Day)
    ensures
      (exists b, d :: b in existing && b.room.id == roomId && b.isActive
         && NightIn(d, b.checkIn, b.checkOut) && NightIn(d, checkIn, checkOut))
      ==> Conflicts(existing, roomId, checkIn, checkOut)
    ensures
      (checkIn < checkOut && (forall b :: b in existing ==> b.checkIn < b.checkOut)
       && Conflicts(existing, roomId, checkIn, checkOut))
      ==> (exists b, d :: b in existing && b.room.id == roomId && b.isActive
             && NightIn(d, b.checkIn, b.checkOut) && NightIn(d, checkIn, checkOut))
  {
    exists b :: b in existing && b.room.id == roomId && b.isActive && Overlaps(b.checkIn, b.checkOut, checkIn, checkOut)
  }

  /** No two active bookings of the same room overlap. */
  predicate ActiveDisjoint(bookings: seq<Booking>) {
    forall i, j :: 0 <= i < j < |bookings| && bookings[i].isActive && bookings[j].isActive
      && bookings[i].room.id == bookings[j].room.id
      ==> !Overlaps(bookings[i].checkIn, bookings[i].checkOut, bookings[j].checkIn, bookings[j].checkOut)
  }

  /**
   * `create_booking` from the submitted form. Form validation runs first and
   * applies `Booking.clean`'s two date rules against the server's date
   * `formToday`. Then a room of another tenant is refused. The view repeats
   * both date rules against its local date `today`, and refuses a stay that
   * overlaps an active booking of the room. Otherwise it creates an active,
   * not yet checked-in booking priced at the nightly rate times the nights.
   * The view's check-out rule can never fire, because the form has already
   * enforced it.
   */
  function CreateBooking(req: BookingRequest, user: nat, formToday: Day, today: Day, existing: seq<Booking>, newId: nat)
    : (r: Result<Booking, BookingError>)
    ensures r.Ok? <==>
      (req.checkIn < req.checkOut && formToday <= req.checkIn && req.room.owner == user && today <= req.checkIn
       && !Conflicts(existing, req.room.id, req.checkIn, req.checkOut))
    ensures r == Err(FormInvalid(CheckOutNotAfterCheckIn)) <==> req.checkOut <= req.checkIn
    ensures r == Err(FormInvalid(CheckInInPast)) <==> req.checkIn < req.checkOut && req.checkIn < formToday
    ensures r == Err(InvalidRoom) <==>
      (req.checkIn < req.checkOut && formToday <= req.checkIn && req.room.owner != user)
    ensures r != Err(BadDates(CheckOutNotAfterCheckIn))
    ensures r == Err(BadDates(CheckInInPast)) <==>
      (req.checkIn < req.checkOut && formToday <= req.checkIn && req.room.owner == user && req.checkIn < today)
    ensures r.Ok? ==> r.value.checkOut - r.value.checkIn >= 1
    ensures r.Ok? ==> r.value.totalPrice == req.room.pricePerNight * (r.value.checkOut - r.value.checkIn)
    ensures r.Ok? ==>
      (r.value.guest == req.guest && r.value.room == req.room
       && r.value.checkIn == req.checkIn && r.value.checkOut == req.checkOut
       && r.value.isActive && !r.value.checkedIn && r.value.id == newId)
  {
    var form := CleanDates(Some(req.checkIn), Some(req.checkOut), formToday);
    if form.Fail? then Err(FormInvalid(form.error))
    else if req.room.owner != user then Err(InvalidRoom)
    else if req.checkOut <= req.checkIn then Err(BadDates(CheckOutNotAfterCheckIn))
    else if req.checkIn < today then Err(BadDates(CheckInInPast))
    else if Conflicts(existing, req.room.id, req.checkIn, req.checkOut) then Err(RoomNotAvailable)
    else
      var nights := req.checkOut - req.checkIn;
      Ok(Booking(newId, req.guest, req.room, req.checkIn, req.checkOut, req.room.pricePerNight * nights, true, false))
  }

  /**
   * The view's date checks and `Booking.clean` agree: a created booking
   * passes `clean` on both dates; a date rule `clean` rejects is reported as
   * a form error whoever owns the room; and when the two dates coincide the
   * view's own date checks never fire.
   */
  lemma ViewAgreesWithClean(req: BookingRequest, user: nat, formToday: Day, today: Day, existing: seq<Booking>, newId: nat)
    ensures CreateBooking(req, user, formToday, today, existing, newId).Ok? ==>
      CleanDates(Some(req.checkIn), Some(req.checkOut), formToday) == Pass
      && CleanDates(Some(req.checkIn), Some(req.checkOut), today) == Pass
    ensures forall e ::
      (CleanDates(Some(req.checkIn), Some(req.checkOut), formToday) == Fail(e)
       ==> CreateBooking(req, user, formToday, today, existing, newId) == Err(FormInvalid(e)))
    ensures formToday == today ==>
      forall e :: CreateBooking(req, user, formToday, today, existing, newId) != Err(BadDates(e))
  {
  }

  /**
   * Creating a booking keeps the store free of overlapping active stays of
   * one room.
   */
  lemma CreateKeepsDisjoint(req: BookingRequest, user: nat, formToday: Day, today: Day, existing: seq<Booking>, newId: nat)
    requires ActiveDisjoint(existing)
    requires CreateBooking(req, user, formToday, today, existing, newId).Ok?
    ensures ActiveDisjoint(existing + [CreateBooking(req, user, formToday, today, existing, newId).value])
  {
    var nb := CreateBooking(req, user, formToday, today, existing, newId).value;
    var all := existing + [nb];
    forall i, j | 0 <= i < j < |all| && all[i].isActive && all[j].isActive && all[i].room.id == all[j].room.id
      ensures !Overlaps(all[i].checkIn, all[i].checkOut, all[j].checkIn, all[j].checkOut)
    {
      if j == |existing| {
        assert all[i] in existing;
      }
    }
  }

  /**
   * Back-to-back stays: with an active booking for `[10, 15)`, a request for
   * `[12, 14)` is refused and one for `[15, 18)` is accepted.
   */
  lemma HalfOpenStays(g: Guest, room: Room, held: Booking, today: Day)
    requires held.room == room && held.isActive && held.checkIn == 10 && held.checkOut == 15
    requires today <= 12
    ensures CreateBooking(BookingRequest(g, room, 12, 14), room.owner, today, today, [held], 1) == Err(RoomNotAvailable)
    ensures CreateBooking(BookingRequest(g, room, 15, 18), room.owner, today, today, [held], 1).Ok?
  {
    assert held in [held];
  }

  /**
   * Another tenant's room with dates in the past is refused by the form
   * before ownership is looked at.
   */
  lemma FormRunsBeforeOwnership(g: Guest, room: Room, user: nat)
    requires room.owner != user
    ensures CreateBooking(BookingRequest(g, room, 3, 5), user, 10, 10, [], 1) == Err(FormInvalid(CheckInInPast))
  {
  }
}
