/**
 * `manual_hash_function` and `guest_lookup_map` (rooms/views.py): the
 * tenant's active, checked-in bookings are written into a 50-slot table
 * indexed by the code-point sum of the room number; a later record that
 * lands in an occupied slot replaces the earlier one. A lookup hashes the
 * requested room number the same way and succeeds only when the record in
 * that slot carries exactly that number.
 */
module GuestTable {
  import opened Base
  import opened Models

  /** The fixed number of slots of the lookup table. */
  const TableSize: nat := 50

  /** One slot's content: the room number, the guest's full name and the room type name. */
  datatype GuestRecord = GuestRecord(room: string, guest: string, roomType: string)

  datatype LookupResult = Found(guest: string, roomType: string) | NotFound

  /** The sum of the code points of a string. */
  function CodeSum(s: string): nat {
    if |s| == 0 then 0 else CodeSum(s[..|s| - 1]) + s[|s| - 1] as nat
  }

  /** The code-point sum of a concatenation is the sum of the parts' sums. */
  lemma {:induction false} CodeSumConcat(a: string, b: string)
    ensures CodeSum(a + b) == CodeSum(a) + CodeSum(b)
    decreases |b|
  {
    if |b| == 0 {
      assert a + b == a;
    } else {
      var b' := b[..|b| - 1];
      assert (a + b)[..|a + b| - 1] == a + b';
      CodeSumConcat(a, b');
    }
  }

  /** `manual_hash_function(key, size)`: the code-point sum of the key, reduced modulo `size`. */
  function ManualHash(key: string, size: nat): (slot: nat)
    requires size > 0
    ensures slot < size
  {
    CodeSum(key) % size
  }

  /**
   * The hash ignores the order of a key's parts, so anagrams such as room
   * numbers "23" and "32" always share a slot.
   */
  lemma SwappedPartsCollide(a: string, b: string, size: nat)
    requires size > 0
    ensures ManualHash(a + b, size) == ManualHash(b + a, size)
  {
    CodeSumConcat(a, b);
    CodeSumConcat(b, a);
  }

  /** `str(key)`: a missing room number is rendered as the text "None". */
  function KeyText(key: Option<string>): string {
    match key
    case Some(k) => k
    case None => "None"
  }

  /** The bucket of a room number. */
  function Bucket(room: string): nat {
    ManualHash(room, TableSize)
  }

  /**
   * The reference meaning of the table: slot `b` ends up holding the last
   * record whose room number hashes to `b`, or nothing when there is none.
   */
  function LastInBucket(records: seq<GuestRecord>, b: nat): (r: Option<GuestRecord>)
    ensures r.Some? ==> r.value in records && Bucket(r.value.room) == b
    ensures r.Some? ==>
      exists k :: 0 <= k < |records| && records[k] == r.value
        && forall k' :: k < k' < |records| ==> Bucket(records[k'].room) != b
    ensures r.None? <==> forall k :: 0 <= k < |records| ==> Bucket(records[k].room) != b
  {
    if |records| == 0 then None
    else if Bucket(records[|records| - 1].room) == b then Some(records[|records| - 1])
    else LastInBucket(records[..|records| - 1], b)
  }

  /** The records the table is built from: the tenant's active and checked-in bookings, in input order. */
  function ActiveGuestRecords(bookings: seq<Booking>, user: nat): (r: seq<GuestRecord>)
    ensures |r| <= |bookings|
    ensures forall g :: g in r <==>
      exists b :: b in bookings && b.room.owner == user && b.isActive && b.checkedIn && g == RecordOf(b)
  {
    if |bookings| == 0 then []
    else
      var b := bookings[0];
      var rest := ActiveGuestRecords(bookings[1..], user);
      assert forall x :: x in bookings <==> x == b || x in bookings[1..];
      if b.room.owner == user && b.isActive && b.checkedIn then [RecordOf(b)] + rest else rest
  }

  function RecordOf(b: Booking): GuestRecord {
    GuestRecord(b.room.number, FullName(b.guest), b.room.roomType)
  }

  /**
   * Writing the records one after another into 50 empty slots: every slot
   * holds the last record that hashes to it.
   */
  method BuildTable(records: seq<GuestRecord>) returns (table: seq<Option<GuestRecord>>)
    ensures |table| == TableSize
    ensures forall b :: 0 <= b < TableSize ==> table[b] == LastInBucket(records, b)
  {
    table := seq(TableSize, _ => None);
    for n := 0 to |records|
      invariant |table| == TableSize
      invariant forall b :: 0 <= b < TableSize ==> table[b] == LastInBucket(records[..n], b)
    {
      var idx := ManualHash(records[n].room, TableSize);
      table := table[idx := Some(records[n])];
      assert records[..n + 1][..n] == records[..n];
    }
    assert records[..|records|] == records;
  }

  /**
   * The reference meaning of a lookup: found exactly when the slot of the
   * requested key holds a record with that very room number. Equivalently:
   * some record carries the key and no record written after it shares its
   * slot; the hit then reports that record.
   */
  function FindGuest(records: seq<GuestRecord>, target: Option<string>): (r: LookupResult)
    ensures r.Found? <==>
      exists k :: 0 <= k < |records| && Some(records[k].room) == target
        && forall k' :: k < k' < |records| ==> Bucket(records[k'].room) != Bucket(records[k].room)
    ensures forall k ::
      (0 <= k < |records| && Some(records[k].room) == target
        && (forall k' :: k < k' < |records| ==> Bucket(records[k'].room) != Bucket(records[k].room)))
      ==> r == Found(records[k].guest, records[k].roomType)
  {
    var slot := LastInBucket(records, ManualHash(KeyText(target), TableSize));
    if slot.Some? && target == Some(slot.value.room) then Found(slot.value.guest, slot.value.roomType)
    else NotFound
  }

  /**
   * `guest_lookup_map`: build the table from the tenant's active, checked-in
   * bookings and probe the slot of the requested room number. A hit always
   * names a checked-in guest of exactly that room.
   */
  method GuestLookupMap(bookings: seq<Booking>, user: nat, target: Option<string>) returns (r: LookupResult)
    ensures r == FindGuest(ActiveGuestRecords(bookings, user), target)
    ensures r.Found? ==>
      exists b :: b in bookings && b.room.owner == user && b.isActive && b.checkedIn
        && Some(b.room.number) == target && r == Found(FullName(b.guest), b.room.roomType)
  {
    var records := ActiveGuestRecords(bookings, user);
    var table := BuildTable(records);
    var searchIndex := ManualHash(KeyText(target), TableSize);
    var result := table[searchIndex];
    if result.Some? && target == Some(result.value.room) {
      r := Found(result.value.guest, result.value.roomType);
      assert result.value in records;
    } else {
      r := NotFound;
    }
  }

  /**
   * Conversely, the record at `k` is the one kept for slot `b` when it hashes
   * there and no later record does. It follows from the "last" clause of
   * `LastInBucket`, which that function's recursion establishes.
   */
  lemma LastIsLast(records: seq<GuestRecord>, b: nat, k: nat)
    requires k < |records| && Bucket(records[k].room) == b
    requires forall k' :: k < k' < |records| ==> Bucket(records[k'].room) != b
    ensures LastInBucket(records, b) == Some(records[k])
  {
  }

  /** A missing room number is never found. */
  lemma MissingKeyNotFound(records: seq<GuestRecord>)
    ensures FindGuest(records, None) == NotFound
  {
  }

  /**
   * Insert then look up: a room is found with its own record as long as no
   * record written after it lands in the same slot.
   */
  lemma LastWriteFound(records: seq<GuestRecord>, e: GuestRecord, rest: seq<GuestRecord>)
    requires forall k :: 0 <= k < |rest| ==> Bucket(rest[k].room) != Bucket(e.room)
    ensures FindGuest(records + [e] + rest, Some(e.room)) == Found(e.guest, e.roomType)
  {
    KeptAtJoin(records, e, rest, Bucket(e.room));
  }

  /**
   * Collision overwrite: once a record for another room that hashes to the
   * same slot is written, looking up `room` reports not found, even if it was
   * written before, as long as no later record lands in that slot.
   */
  lemma LaterCollisionHides(records: seq<GuestRecord>, e: GuestRecord, rest: seq<GuestRecord>, room: string)
    requires Bucket(e.room) == Bucket(room) && e.room != room
    requires forall k :: 0 <= k < |rest| ==> Bucket(rest[k].room) != Bucket(room)
    ensures FindGuest(records + [e] + rest, Some(room)) == NotFound
  {
    KeptAtJoin(records, e, rest, Bucket(room));
  }

  /** In `records + [e] + rest`, slot `b` keeps `e` when `e` hashes there and nothing of `rest` does. */
  lemma KeptAtJoin(records: seq<GuestRecord>, e: GuestRecord, rest: seq<GuestRecord>, b: nat)
    requires Bucket(e.room) == b
    requires forall k :: 0 <= k < |rest| ==> Bucket(rest[k].room) != b
    ensures LastInBucket(records + [e] + rest, b) == Some(e)
  {
    var all := records + [e] + rest;
    var k := |records|;
    assert all[k] == e;
    forall k' | k < k' < |all|
      ensures Bucket(all[k'].room) != b
    {
      assert all[k'] == rest[k' - k - 1];
    }
    LastIsLast(all, b, k);
  }

  /**
   * Without collisions lookup is exact: when some record carries `room` and
   * every record sharing its slot carries `room` too, the lookup finds the
   * last of them; conversely a hit only ever reports a record for `room`.
   */
  lemma {:induction false} LookupExact(records: seq<GuestRecord>, room: string)
    ensures FindGuest(records, Some(room)).Found? ==>
      exists k :: 0 <= k < |records| && records[k].room == room
        && FindGuest(records, Some(room)) == Found(records[k].guest, records[k].roomType)
    ensures (exists k :: 0 <= k < |records| && records[k].room == room)
      && (forall k :: 0 <= k < |records| && Bucket(records[k].room) == Bucket(room) ==> records[k].room == room)
      ==> FindGuest(records, Some(room)).Found?
  {
    var slot := LastInBucket(records, Bucket(room));
    if slot.Some? {
      var k :| 0 <= k < |records| && records[k] == slot.value;
    }
  }

  /** Room numbers "23" and "32" collide, so recording "23" and then "32" hides "23". */
  lemma AnagramRoomsCollide(g1: string, g2: string, t: string)
    ensures FindGuest([GuestRecord("23", g1, t), GuestRecord("32", g2, t)], Some("23")) == NotFound
  {
    SwappedPartsCollide("2", "3", TableSize);
    assert "2" + "3" == "23" && "3" + "2" == "32";
    LaterCollisionHides([GuestRecord("23", g1, t)], GuestRecord("32", g2, t), [], "23");
    assert [GuestRecord("23", g1, t)] + [GuestRecord("32", g2, t)] + []
      == [GuestRecord("23", g1, t), GuestRecord("32", g2, t)];
  }
}
