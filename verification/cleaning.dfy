/**
 * The cleaning workflow of rooms/views.py: `get_cleaning_route` chains the
 * tenant's rooms in state `cleaning` into a singly linked list of nodes and
 * walks it; `start_day_cleaning`, `mark_room_cleaned` and `reset_all_rooms`
 * move rooms between states.
 */
module Cleaning {
  import opened Base
  import opened Models

  /** One entry of the route: the room's number and id. */
  datatype Stop = Stop(number: string, id: nat)

  /** The node chain of the route: each node holds a stop and its successor. */
  datatype Route = End | Node(val: string, id: nat, next: Route)

  function StopOf(r: Room): Stop {
    Stop(r.number, r.id)
  }

  /**
   * Chains stops front to back: the first stop is the head node, and
   * walking the chain gives the stops back in order.
   */
  function Link(stops: seq<Stop>): (r: Route)
    ensures Walk(r) == stops
    ensures r.End? <==> |stops| == 0
  {
    if |stops| == 0 then End else Node(stops[0].number, stops[0].id, Link(stops[1..]))
  }

  /** Follows the successor references from a node to the end of the chain. */
  function Walk(route: Route): seq<Stop> {
    match route
    case End => []
    case Node(v, id, next) => [Stop(v, id)] + Walk(next)
  }

  /** The tenant's rooms in state `cleaning`, in input order. */
  function Dirty(rooms: seq<Room>, user: nat): (d: seq<Room>)
    ensures |d| <= |rooms|
    ensures forall x :: x in d <==> x in rooms && x.owner == user && x.state == Cleaning
  {
    if |rooms| == 0 then []
    else
      var rest := Dirty(rooms[1..], user);
      assert forall x :: x in rooms <==> x == rooms[0] || x in rooms[1..];
      if rooms[0].owner == user && rooms[0].state == Cleaning then [rooms[0]] + rest else rest
  }

  /** Lexicographic order on room-number text, by code point. */
  predicate NumberLe(a: string, b: string)
    decreases |a|
  {
    |a| == 0 || (|b| > 0 && (a[0] < b[0] || (a[0] == b[0] && NumberLe(a[1..], b[1..]))))
  }

  /** Rooms listed in ascending room-number order, as the store delivers them. */
  predicate SortedByNumber(rooms: seq<Room>) {
    forall i, j :: 0 <= i < j < |rooms| ==> NumberLe(rooms[i].number, rooms[j].number)
  }

  /** Filtering keeps the room-number order. */
  lemma {:induction false} DirtyKeepsOrder(rooms: seq<Room>, user: nat)
    requires SortedByNumber(rooms)
    ensures SortedByNumber(Dirty(rooms, user))
    decreases |rooms|
  {
    if |rooms| > 0 {
      DirtyKeepsOrder(rooms[1..], user);
      var rest := Dirty(rooms[1..], user);
      forall x | x in rest
        ensures NumberLe(rooms[0].number, x.number)
      {
        var k :| 0 <= k < |rooms[1..]| && rooms[1..][k] == x;
        assert rooms[k + 1] == x;
      }
    }
  }

  /** The stops of some rooms, one per room, in the same order. */
  function StopsOf(d: seq<Room>): (stops: seq<Stop>)
    ensures |stops| == |d|
    ensures forall k :: 0 <= k < |d| ==> stops[k] == StopOf(d[k])
  {
    seq(|d|, k requires 0 <= k < |d| => StopOf(d[k]))
  }

  /** The stops of the dirty rooms are exactly the stops of the tenant's rooms in `cleaning`. */
  lemma StopsOfDirty(rooms: seq<Room>, user: nat)
    ensures forall s :: s in StopsOf(Dirty(rooms, user)) <==>
      exists x :: x in rooms && x.owner == user && x.state == Cleaning && s == StopOf(x)
  {
    var d := Dirty(rooms, user);
    var stops := StopsOf(d);
    forall s | s in stops
      ensures exists x :: x in rooms && x.owner == user && x.state == Cleaning && s == StopOf(x)
    {
      var k :| 0 <= k < |stops| && stops[k] == s;
      assert d[k] in d;
    }
    forall x | x in rooms && x.owner == user && x.state == Cleaning
      ensures StopOf(x) in stops
    {
      var k :| 0 <= k < |d| && d[k] == x;
      assert stops[k] == StopOf(x);
    }
  }

  /** With no room of the tenant in `cleaning`, nothing is dirty. */
  lemma {:induction false} NothingDirty(rooms: seq<Room>, user: nat)
    requires forall k :: 0 <= k < |rooms| && rooms[k].owner == user ==> rooms[k].state != Cleaning
    ensures Dirty(rooms, user) == []
    decreases |rooms|
  {
    if |rooms| > 0 {
      NothingDirty(rooms[1..], user);
    }
  }

  /** The traversal loop: follow successors from the head, recording each node. */
  method WalkRoute(head: Route) returns (route: seq<Stop>)
    ensures route == Walk(head)
  {
    route := [];
    var curr := head;
    while curr.Node?
      invariant route + Walk(curr) == Walk(head)
      decreases curr
    {
      route := route + [Stop(curr.val, curr.id)];
      curr := curr.next;
    }
  }

  /** What the stops of the dirty rooms promise: exact membership, order, and emptiness. */
  lemma RouteFacts(rooms: seq<Room>, user: nat)
    ensures forall s :: s in StopsOf(Dirty(rooms, user)) <==>
      exists x :: x in rooms && x.owner == user && x.state == Cleaning && s == StopOf(x)
    ensures (forall k :: 0 <= k < |rooms| && rooms[k].owner == user ==> rooms[k].state != Cleaning) ==>
      Dirty(rooms, user) == []
    ensures SortedByNumber(rooms) ==> SortedByNumber(Dirty(rooms, user))
  {
    StopsOfDirty(rooms, user);
    if SortedByNumber(rooms) {
      DirtyKeepsOrder(rooms, user);
    }
    if forall k :: 0 <= k < |rooms| && rooms[k].owner == user ==> rooms[k].state != Cleaning {
      NothingDirty(rooms, user);
    }
  }

  /**
   * `get_cleaning_route`: chain the tenant's rooms in state `cleaning` and
   * walk the chain. The route lists exactly those rooms, in input order (so
   * in room-number order when the input is), and is empty when no room is
   * being cleaned.
   */
  method GetCleaningRoute(rooms: seq<Room>, user: nat) returns (route: seq<Stop>)
    ensures route == StopsOf(Dirty(rooms, user))
    ensures forall s :: s in route <==> exists x :: x in rooms && x.owner == user && x.state == Cleaning && s == StopOf(x)
    ensures (forall k :: 0 <= k < |rooms| && rooms[k].owner == user ==> rooms[k].state != Cleaning) ==> route == []
    ensures SortedByNumber(rooms) ==> forall i, j :: 0 <= i < j < |route| ==> NumberLe(route[i].number, route[j].number)
  {
    var dirty := Dirty(rooms, user);
    RouteFacts(rooms, user);
    if |dirty| == 0 {
      return [];
    }
    var stops := StopsOf(dirty);
    var head := Link(stops);
    route := WalkRoute(head);
  }

  /** A room with everything but its state unchanged. */
  predicate SameRoom(a: Room, b: Room) {
    a.id == b.id && a.owner == b.owner && a.number == b.number && a.roomType == b.roomType
    && a.pricePerNight == b.pricePerNight
  }

  /** Sets the state of every room of `user`; other tenants' rooms are left alone. */
  function SetAllStates(rooms: seq<Room>, user: nat, s: RoomState): (r: seq<Room>)
    ensures |r| == |rooms|
    ensures forall k :: 0 <= k < |r| ==> SameRoom(r[k], rooms[k])
    ensures forall k :: 0 <= k < |r| && rooms[k].owner == user ==> r[k].state == s
    ensures forall k :: 0 <= k < |r| && rooms[k].owner != user ==> r[k] == rooms[k]
  {
    seq(|rooms|, k requires 0 <= k < |rooms| => if rooms[k].owner == user then rooms[k].(state := s) else rooms[k])
  }

  /** A change of states only keeps the `(user, number)` and id uniqueness of the room table. */
  lemma StateChangesKeepKeys(a: seq<Room>, b: seq<Room>)
    requires |a| == |b| && forall k :: 0 <= k < |a| ==> SameRoom(a[k], b[k])
    ensures UniqueNumbers(a) <==> UniqueNumbers(b)
    ensures UniqueIds(a) <==> UniqueIds(b)
  {
  }

  /** `start_day_cleaning`: every room of the tenant goes to `cleaning`, whatever its state. */
  function StartDayCleaning(rooms: seq<Room>, user: nat): (r: seq<Room>)
    ensures |r| == |rooms|
    ensures forall k :: 0 <= k < |r| ==> SameRoom(r[k], rooms[k])
    ensures forall k :: 0 <= k < |r| && rooms[k].owner == user ==> r[k].state == Cleaning
    ensures forall k :: 0 <= k < |r| && rooms[k].owner != user ==> r[k] == rooms[k]
  {
    SetAllStates(rooms, user, Cleaning)
  }

  /** `reset_all_rooms`: every room of the tenant goes to `available`. */
  function ResetAllRooms(rooms: seq<Room>, user: nat): (r: seq<Room>)
    ensures |r| == |rooms|
    ensures forall k :: 0 <= k < |r| ==> SameRoom(r[k], rooms[k])
    ensures forall k :: 0 <= k < |r| && rooms[k].owner == user ==> r[k].state == Available
    ensures forall k :: 0 <= k < |r| && rooms[k].owner != user ==> r[k] == rooms[k]
  {
    SetAllStates(rooms, user, Available)
  }

  /** After the day's cleaning starts, the route visits every room of the tenant. */
  lemma StartPutsEveryRoomOnRoute(rooms: seq<Room>, user: nat)
    ensures forall k :: 0 <= k < |rooms| && rooms[k].owner == user ==>
      rooms[k].(state := Cleaning) in Dirty(StartDayCleaning(rooms, user), user)
  {
    var r := StartDayCleaning(rooms, user);
    forall k | 0 <= k < |rooms| && rooms[k].owner == user
      ensures rooms[k].(state := Cleaning) in Dirty(r, user)
    {
      assert r[k] == rooms[k].(state := Cleaning);
      assert r[k] in r;
    }
  }

  /** After a reset, no room of the tenant is left on the cleaning route. */
  lemma ResetEmptiesRoute(rooms: seq<Room>, user: nat)
    ensures Dirty(ResetAllRooms(rooms, user), user) == []
  {
    NothingDirty(ResetAllRooms(rooms, user), user);
  }

  datatype CleanError = RoomNotFound

  /**
   * Whether some checked-in booking of the room covers `today`, check-in and
   * check-out days included. The active flag is not consulted. Read on
   * half-open stays: a checked-in guest sleeps in the room tonight, or is
   * leaving today.
   */
  predicate HasGuest(bookings: seq<Booking>, roomId: nat, today: Day)
    ensures HasGuest(bookings, roomId, today) <==>
      exists b :: b in bookings && b.room.id == roomId && b.checkedIn
        && (NightIn(today, b.checkIn, b.checkOut) || (b.checkIn <= b.checkOut && today == b.checkOut))
    ensures forall b ::
      (b in bookings && b.room.id == roomId && b.checkedIn && !b.isActive && NightIn(today, b.checkIn, b.checkOut))
      ==> HasGuest(bookings, roomId, today)
  {
    exists b :: b in bookings && b.room.id == roomId && b.checkIn <= today <= b.checkOut && b.checkedIn
  }

  /** The position of the room with this id owned by `user`, if any. */
  function FindRoom(rooms: seq<Room>, roomId: nat, user: nat): (r: Option<nat>)
    ensures r.Some? ==> r.value < |rooms| && rooms[r.value].id == roomId && rooms[r.value].owner == user
    ensures r.None? <==> forall k :: 0 <= k < |rooms| ==> !(rooms[k].id == roomId && rooms[k].owner == user)
  {
    if |rooms| == 0 then None
    else if rooms[|rooms| - 1].id == roomId && rooms[|rooms| - 1].owner == user then Some(|rooms| - 1)
    else FindRoom(rooms[..|rooms| - 1], roomId, user)
  }

  /**
   * `mark_room_cleaned`: the tenant's room with the given id becomes
   * `occupied` when a checked-in booking covers today and `available`
   * otherwise, from whatever state it was in; no other room changes. An id
   * the tenant does not own is an error.
   */
  function MarkRoomCleaned(rooms: seq<Room>, bookings: seq<Booking>, roomId: nat, user: nat, today: Day)
    : (r: Result<seq<Room>, CleanError>)
    requires UniqueIds(rooms)
    ensures r.Err? <==> forall k :: 0 <= k < |rooms| ==> !(rooms[k].id == roomId && rooms[k].owner == user)
    ensures r.Ok? ==> |r.value| == |rooms|
    ensures r.Ok? ==> forall k :: 0 <= k < |rooms| ==> SameRoom(r.value[k], rooms[k])
    ensures r.Ok? ==> forall k :: 0 <= k < |rooms| && rooms[k].id == roomId ==>
      r.value[k].state == (if HasGuest(bookings, roomId, today) then Occupied else Available)
    ensures r.Ok? ==> forall k :: 0 <= k < |rooms| && rooms[k].id != roomId ==> r.value[k] == rooms[k]
  {
    match FindRoom(rooms, roomId, user)
    case None => Err(RoomNotFound)
    case Some(k) =>
      var s := if HasGuest(bookings, roomId, today) then Occupied else Available;
      Ok(rooms[k := rooms[k].(state := s)])
  }

  /** Marking a room cleaned takes it, and only it, off the cleaning route. */
  lemma CleanedRoomLeavesRoute(rooms: seq<Room>, bookings: seq<Booking>, roomId: nat, user: nat, today: Day)
    requires UniqueIds(rooms)
    requires MarkRoomCleaned(rooms, bookings, roomId, user, today).Ok?
    ensures forall x :: x in Dirty(MarkRoomCleaned(rooms, bookings, roomId, user, today).value, user) <==>
      x in Dirty(rooms, user) && x.id != roomId
  {
    var r := MarkRoomCleaned(rooms, bookings, roomId, user, today).value;
    forall x
      ensures x in Dirty(r, user) <==> x in Dirty(rooms, user) && x.id != roomId
    {
      if x in Dirty(r, user) {
        var k :| 0 <= k < |r| && r[k] == x;
        assert rooms[k] == x;
      }
      if x in Dirty(rooms, user) && x.id != roomId {
        var k :| 0 <= k < |rooms| && rooms[k] == x;
        assert r[k] == x;
      }
    }
  }
}
