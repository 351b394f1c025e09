# Hotel room operations: a verified model of the hand-written algorithms

This project models the algorithmic core of a small multi-tenant hotel
management application written in Django. Each tenant (an operator account) owns
rooms, bookings, maintenance tasks and room-service orders. The request handlers
of `rooms/views.py` contain a handful of hand-written data-structure algorithms.
The model lifts each one out of the ORM and states it over in-memory records:

- **Maintenance queue** (`PrioritySort`). `manual_priority_sort` is a bubble sort of
  pending tasks by priority (1 Critical … 4 Low). Ties are broken on the creation
  timestamp when both tasks have one.
- **Room-service heap** (`ServiceHeap`). `manual_heapify_up` and the insertion loop of
  `get_room_service_heap` build an array-backed binary min-heap of orders keyed on
  their timestamp. The response is the heap array, not a sorted list.
- **Guest lookup table** (`GuestTable`). `manual_hash_function` sums the code points of
  a room number modulo 50. `guest_lookup_map` writes the tenant's active, checked-in
  bookings into 50 slots, where the last write to a slot wins. A lookup hits only on
  an exact room-number match.
- **Guest search** (`GuestSearch`). `manual_string_search` is a brute-force,
  case-insensitive substring test. `search_guests_algo` runs it over guest names and
  keeps the first five hits.
- **Cleaning workflow** (`Cleaning`). `get_cleaning_route` chains the rooms in state
  `cleaning` into a linked list of nodes and walks it. `start_day_cleaning`,
  `mark_room_cleaned` and `reset_all_rooms` move rooms between states.
- **Booking creation** (`Bookings`, with `Booking.clean` in `Models`). `create_booking`
  first runs form validation, which applies the two date rules of `BookingForm.clean`
  and `Booking.clean` against `date.today()`. It then checks room ownership, repeats
  the two date rules against `timezone.localdate()`, tests half-open overlap with the
  room's active bookings, and prices the stay.

Representation choices:

- Dates are integer day numbers, and "today" is a parameter. `create_booking` reads the
  date twice, through `date.today()` in form validation and `timezone.localdate()` in
  the view, so `CreateBooking` takes both.
- Timestamps are integers. A task's `created_at` is an `Option<int>`.
- Prices are integer cents.
- Lower-casing covers the ASCII letters only.
- Tenant filtering is explicit where the model does it: `create_booking`,
  `guest_lookup_map`, `search_guests_algo`, `get_cleaning_route` and the state-changing
  handlers take the acting user's id and compare it with the `owner` of each room.
  `RoomServiceHeap` and `ManualPrioritySort` take records the handler has already
  filtered to the tenant (`room__user` at rooms/views.py:326 and :269). A room-service
  order record carries no owner.
- The algorithms that loop in the source are methods over a local `seq`, with loop
  invariants. The rest are pure functions.
- A ghost permutation in the sort records where each output task came from. Stability
  is stated through it.

`Models` (in `models.dfy`) holds the records:

- `Room.state` is the datatype `RoomState` with its four values. `DefaultRoomState` is
  `Available`.
- `MaintenanceTask.priority` is the subset type `Priority` over 1..4, with
  `DefaultPriority` 3.
- `status` is `Pending` or `Completed`, with default `Pending`.
- `(user, number)` uniqueness is the predicate `UniqueNumbers`.

Notes on the code's behaviour:

- `mark_room_cleaned` looks for a checked-in booking with `check_in <= today <= check_out`
  and does not filter on `is_active`; it accepts a room in any state.
- Form validation runs before the ownership test. So another tenant's room with dates
  in the past is refused for its dates, not as an invalid room. The view's own date
  checks can fire only when `date.today()` and `timezone.localdate()` differ, and its
  check-out check never fires, because the form has already enforced that rule.
- The swap test of the sort is a strict partial order, but not a strict weak order,
  once a timestamp may be missing. For example, with equal priorities, the input
  `A(created 5), B(no timestamp), C(created 3)` is never rearranged, because no
  adjacent pair is a strict inversion. So "earlier timestamp first" holds across the
  whole output only when every task is stamped. The model proves exactly that, plus
  stability in general. The column is `auto_now_add`, so stored tasks always carry a
  timestamp.

## Model

| member | source | states |
|---|---|---|
| Models.CleanDates | rooms/models.py:61-67 | with both dates present, a check-out on or before the check-in is refused first, then a check-in before today; a missing date passes both checks |
| PrioritySort.ManualPrioritySort | rooms/views.py:244-264 | the output is a permutation of the tasks (same length, same multiset); priorities never decrease; when every task is stamped, no task precedes one it should follow by (priority, created-at); two tasks change relative order only when the earlier one was a strict inversion, so equal keys or a missing timestamp never reorder (stability); inputs of length at most one come back unchanged |
| PrioritySort.BubblePass | rooms/views.py:248-262 | one inner pass over `0..hi` keeps the rearrangement and stability, leaves the tail beyond `hi` untouched, and brings a task of maximal priority (and, for stamped tasks, one nothing before it must follow) to position `hi` |
| PrioritySort.ShouldSwap | rooms/views.py:252-259 | a swap never moves a more urgent task behind a less urgent one, and never happens between equal priorities when a timestamp is missing or both are equal |
| PrioritySort.SwapAsymmetric | rooms/views.py:252-259 | the swap test never fires in both directions |
| PrioritySort.StayTransitive | rooms/views.py:254-259 | among stamped tasks, "does not need to swap" is transitive, which is what makes the tie-broken order a total preorder |
| PrioritySort.SwapKeepsStability | rooms/views.py:261-262 | exchanging neighbours only on a strict inversion never reverses a pair that was not a strict inversion |
| ServiceHeap.HeapifyUp | rooms/views.py:316-321 | sift-up keeps the orders (same multiset) and turns an array whose heap order is broken only at `i` and its parent into a min-heap: every timestamp is at least its parent's at `(i-1)/2` |
| ServiceHeap.Insert | rooms/views.py:337-338 | appending an order and sifting it up turns a heap into a heap holding exactly one more order |
| ServiceHeap.RootIsMinimum | rooms/views.py:316-321 | in a heap, no order is earlier than the one at the root |
| ServiceHeap.RoomServiceHeap | rooms/views.py:325-340 | the heap snapshot is a permutation of the orders, satisfies the heap order, has the earliest order first, and keeps orders that already arrive in time order in place, since equal timestamps are never swapped |
| GuestTable.ManualHash | rooms/views.py:536-538 | the slot of a key always lies in `[0, size)` |
| GuestTable.CodeSumConcat | rooms/views.py:537 | the code-point sum of a concatenation is the sum of the parts' sums |
| GuestTable.SwappedPartsCollide | rooms/views.py:536-538 | swapping the parts of a key does not change its slot, so anagram room numbers always collide |
| GuestTable.LastInBucket | rooms/views.py:549-555 | the record left in a slot is one of the records, hashes to that slot, and no record after it hashes there (it is the last one); the slot is empty exactly when no record hashes to it |
| GuestTable.LastIsLast | rooms/views.py:549-555 | conversely, a record that hashes to a slot with no later record hashing there is the one the slot keeps |
| GuestTable.KeptAtJoin | rooms/views.py:549-555 | a record followed only by records of other slots is the one its slot keeps |
| GuestTable.ActiveGuestRecords | rooms/views.py:547-555 | the records written are exactly those of the tenant's active, checked-in bookings |
| GuestTable.BuildTable | rooms/views.py:544-555 | after writing all records into 50 empty slots, every slot holds the last record hashing to it (later writes overwrite earlier ones) |
| GuestTable.GuestLookupMap | rooms/views.py:542-562 | the lookup answers as the last-write table does, and a hit always names a checked-in guest of exactly the requested room |
| GuestTable.MissingKeyNotFound | rooms/views.py:557-562 | a request without a room number is never found |
| GuestTable.FindGuest | rooms/views.py:557-562 | a lookup hits exactly when some record carries the requested room number and no record written after it lands in its slot, and then reports that record |
| GuestTable.LastWriteFound | rooms/views.py:549-561 | a record is found under its own room number whenever no later record lands in its slot |
| GuestTable.LaterCollisionHides | rooms/views.py:549-562 | once a record for a different room lands in the same slot, and nothing after it does, the earlier room is reported not found |
| GuestTable.LookupExact | rooms/views.py:557-562 | a hit returns a record with exactly the requested room number; conversely, a stored room whose slot holds no other room number is found |
| GuestTable.AnagramRoomsCollide | rooms/views.py:549-562 | writing room "23" and then room "32" makes "23" unfindable |
| GuestSearch.ManualStringSearch | rooms/views.py:564-574 | the scan answers true exactly when the pattern is non-empty and its lower-cased form is a contiguous slice of the lower-cased text; the empty pattern and a pattern longer than the text give false |
| GuestSearch.CaseBlind | rooms/views.py:566 | lower-casing the text or the pattern beforehand never changes whether the search matches |
| GuestSearch.SearchExamples | rooms/views.py:564-574 | "mar" is found in "Maria Lopez"; "zz" is not found in "Maria"; the empty pattern is never found |
| GuestSearch.StatusOf | rooms/views.py:588-590 | a checked-in booking whose room is available again is checked out; otherwise inactive means past, and active means active before check-in and in-house after |
| GuestSearch.TenantBookings | rooms/views.py:582 | the scanned bookings are exactly those of the tenant's rooms, and a latest-first input stays latest-first |
| GuestSearch.Hits | rooms/views.py:585-592 | the uncapped hits are exactly the bookings whose guest name matches the query |
| GuestSearch.EmptyQueryHasNoHits | rooms/views.py:567 | no guest name matches the empty query |
| GuestSearch.HitsKeepOrder | rooms/views.py:582-592 | bookings listed latest check-in first give hits listed latest check-in first |
| GuestSearch.SearchGuestsAlgo | rooms/views.py:578-595 | an empty query returns nothing; otherwise the result is the first five hits among the tenant's bookings in input order, every hit is a matching booking of the tenant, and other tenants' bookings do not count toward the cap |
| GuestSearch.ScanForHits | rooms/views.py:584-593 | the scan that stops at the fifth hit returns exactly the first five hits, so stopping early loses nothing earlier |
| GuestSearch.HitsPrefix | rooms/views.py:585-593 | the hits of a prefix of the bookings are a prefix of all hits |
| Cleaning.Link | rooms/views.py:488-492 | walking the node chain built from some stops gives those stops back, in order; the chain is empty only for no stops |
| Cleaning.WalkRoute | rooms/views.py:494-498 | the traversal loop collects exactly the stops of the chain from the head on |
| Cleaning.Dirty | rooms/views.py:484 | the selected rooms are exactly the tenant's rooms in state `cleaning` |
| Cleaning.DirtyKeepsOrder | rooms/views.py:484 | selecting rooms keeps the ascending room-number order |
| Cleaning.GetCleaningRoute | rooms/views.py:483-500 | the route lists one stop per cleaning room of the tenant, in input order, each stop being such a room and every such room appearing; it is sorted by number when the rooms are, and empty when none is being cleaned |
| Cleaning.StartDayCleaning | rooms/views.py:504-506 | every room of the tenant is set to `cleaning` whatever its state; other tenants' rooms and every other field are unchanged |
| Cleaning.ResetAllRooms | rooms/views.py:530-532 | every room of the tenant is set to `available`; other tenants' rooms and every other field are unchanged |
| Cleaning.StartPutsEveryRoomOnRoute | rooms/views.py:505 | after the day's cleaning starts, every room of the tenant is on the cleaning route |
| Cleaning.ResetEmptiesRoute | rooms/views.py:531 | after a reset, the cleaning route is empty |
| Cleaning.FindRoom | rooms/views.py:513 | the room is found exactly when the tenant owns a room with that id |
| Cleaning.HasGuest | rooms/views.py:515-520 | a room has a guest today exactly when a checked-in booking of it either has tonight's night in its stay or checks out today; an inactive booking counts too |
| Cleaning.MarkRoomCleaned | rooms/views.py:510-526 | an id the tenant does not own is an error; otherwise that room becomes `occupied` if some checked-in booking covers today (both ends inclusive, no active filter) and `available` if not, and no other room changes |
| Cleaning.CleanedRoomLeavesRoute | rooms/views.py:510-526 | marking a room cleaned removes it, and only it, from the cleaning route |
| Cleaning.StateChangesKeepKeys | rooms/models.py:27-28 | changing only room states keeps `(user, number)` and id uniqueness |
| Bookings.CreateBooking | rooms/views.py:93-131 | the booking is created exactly when check-out is after check-in, check-in is not before the form's date, the room is the tenant's, check-in is not before the view's date, and no active booking of the room overlaps the half-open stay; a form date error is reported whoever owns the room, an invalid room only for dates the form accepts, the view's past-date refusal only when the two dates differ, and its check-out refusal never; a created booking is active, not checked in, lasts at least one night and costs the nightly price times the nights |
| Bookings.FormRunsBeforeOwnership | rooms/views.py:93-109 | another tenant's room with past dates is refused for its dates, not as an invalid room |
| Bookings.ViewAgreesWithClean | rooms/views.py:93-119 | a created booking passes `Booking.clean` on both dates; each date rule `clean` breaks on the form's date is the refusal reason, whoever owns the room; when both dates coincide the view's own date checks never fire |
| Bookings.CreateKeepsDisjoint | rooms/views.py:121-132 | adding a created booking keeps the store free of overlapping active stays of the same room |
| Bookings.HalfOpenStays | rooms/views.py:121-128 | against an active stay of days 10 to 15, days 12 to 14 are refused and days 15 to 18 (back to back) are accepted |
| Bookings.Overlaps | rooms/views.py:121-127 | stays sharing a night always overlap; two stays of at least one night that overlap share the night of the later check-in |
| Bookings.Conflicts | rooms/views.py:121-128 | a conflict is found whenever an active booking of the room shares a night with the stay, and for stays of at least one night only then |
| Bookings.OverlapSymmetric | rooms/views.py:124-125 | the overlap test does not depend on which stay is named first |

## Left out

- The ORM queries, `JsonResponse`, `login_required`/`require_POST` and URL routing are
  not modelled. Tenant filtering is an explicit owner comparison, and query ordering
  (`order_by`) is a property of the input sequence.
- `system_notify` is not modelled, and neither are the notification queue, the action
  log, the waitlist and the do-not-disturb set. They are plain inserts and deletes with
  no algorithm of their own.
- `get_room_date_info` and all `strftime`/`localtime` rendering are not modelled. They
  only format dates as text.
- `home`, `add_room`, `today_checkins`, `update_room_status`, `get_all_rooms_status`,
  `process_checkin`, the maintenance add/complete handlers and the room-service
  add/complete handlers are not modelled. They are single-record reads and writes.
- `get_pending_tasks` is not modelled; it only pre-filters on `status == 'pending'`
  before calling the sort.
- Guest `update_or_create` in `create_booking` is not modelled. It is a store upsert.
- The hotelconfig app and admin registration are not modelled. Of rooms/forms.py only
  the date rules of `BookingForm.clean` are modelled. They coincide with those of
  `Booking.clean`, which form validation also runs, both against `date.today()`.
  `GuestForm`'s field validation and the form's field parsing are not modelled, and
  the two error messages are folded into one reason per rule.
- The race between the overlap check and `booking.save()` is not modelled. It only
  exists under concurrent requests.
- Room-service timestamps are converted to floats in the source. The model keeps
  them as integers.
- Bookings.CreateBooking: does not model the 8-digit limit of the `total_price`
  column, which would make the database refuse the write for very long or
  expensive stays.
- GuestSearch.ManualStringSearch: lower-cases ASCII letters only. Python's
  Unicode `lower()` can map other characters, and can even change a string's length.
- PrioritySort.ManualPrioritySort: earliest-first among equal priorities is proved
  only when every task carries a timestamp. With a missing timestamp between two
  stamped tasks of equal priority, the bubble passes never compare them, so no such
  global order holds. Stability is proved unconditionally.
- Cleaning.MarkRoomCleaned: a room id that is absent or not a number makes the source
  report the exception text. The model folds these into the not-found error.
- Cleaning.GetCleaningRoute: the route is in room-number order only as far as the
  store orders the rooms. `NumberLe` assumes code-point collation of the text.
