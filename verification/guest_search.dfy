/**
 * `manual_string_search` and `search_guests_algo` (rooms/views.py): a
 * brute-force, case-insensitive substring test, and the guest search that
 * applies it to every booking's guest name and keeps the first five hits.
 */
module GuestSearch {
  import opened Models

  /** Lower-casing of one character, restricted to the ASCII letters. */
  function ToLower(c: char): char {
    if 'A' <= c <= 'Z' then (c as int + 32) as char else c
  }

  /** Lower-casing of a string, character by character. */
  function Lower(s: string): string {
    seq(|s|, k requires 0 <= k < |s| => ToLower(s[k]))
  }

  /** `p` occurs in `t` starting at offset `i`. */
  predicate OccursAt(p: string, t: string, i: int) {
    0 <= i && i + |p| <= |t| && t[i..i + |p|] == p
  }

  /**
   * The meaning of a match: a non-empty pattern whose lower-cased form is a
   * contiguous slice of the lower-cased text.
   */
  ghost predicate Matches(text: string, pattern: string) {
    |pattern| > 0 && exists i :: OccursAt(Lower(pattern), Lower(text), i)
  }

  /**
   * `manual_string_search`: try every start offset from which the pattern
   * still fits and compare character by character. The empty pattern, and a
   * pattern longer than the text, never match.
   */
  method ManualStringSearch(text: string, pattern: string) returns (found: bool)
    ensures found == Matches(text, pattern)
    ensures |pattern| == 0 || |pattern| > |text| ==> !found
  {
    var t, p := Lower(text), Lower(pattern);
    var n, m := |t|, |p|;
    if m == 0 || m > n {
      return false;
    }
    var i := 0;
    while i < n - m + 1
      invariant 0 <= i <= n - m + 1
      invariant forall i' :: 0 <= i' < i ==> !OccursAt(p, t, i')
    {
      var matched := true;
      var j := 0;
      while j < m
        invariant 0 <= j <= m
        invariant matched
        invariant forall q :: 0 <= q < j ==> t[i + q] == p[q]
      {
        if t[i + j] != p[j] {
          matched := false;
          assert t[i..i + m][j] != p[j];
          break;
        }
        j := j + 1;
      }
      if matched {
        assert t[i..i + m] == p;
        assert OccursAt(p, t, i);
        return true;
      }
      i := i + 1;
    }
    return false;
  }

  /**
   * The search is blind to the case of either argument: lower-casing the
   * text or the pattern beforehand changes nothing.
   */
  lemma {:induction false} CaseBlind(text: string, pattern: string)
    ensures Matches(Lower(text), pattern) == Matches(text, pattern)
    ensures Matches(text, Lower(pattern)) == Matches(text, pattern)
  {
    LowerIdempotent(text);
    LowerIdempotent(pattern);
  }

  /** Lower-casing twice is lower-casing once. */
  lemma LowerIdempotent(s: string)
    ensures Lower(Lower(s)) == Lower(s)
  {
  }

  /** A pattern whose first letter never appears in the text occurs nowhere in it. */
  lemma AbsentLetterNoOccurrence(p: string, t: string)
    requires |p| > 0 && forall k :: 0 <= k < |t| ==> t[k] != p[0]
    ensures forall i :: !OccursAt(p, t, i)
  {
    forall i
      ensures !OccursAt(p, t, i)
    {
      if 0 <= i && i + |p| <= |t| {
        assert t[i..i + |p|][0] != p[0];
      }
    }
  }

  /** "Maria Lopez" contains "mar" regardless of case; "Maria" does not contain "zz". */
  lemma SearchExamples()
    ensures Matches("Maria Lopez", "mar")
    ensures !Matches("Maria", "zz")
    ensures !Matches("Maria", "")
  {
    assert Lower("mar") == "mar";
    assert Lower("Maria Lopez")[0..3] == "mar";
    assert OccursAt(Lower("mar"), Lower("Maria Lopez"), 0);
    assert Lower("Maria") == "maria" && Lower("zz") == "zz";
    AbsentLetterNoOccurrence("zz", "maria");
  }

  /** How `search_guests_algo` labels a booking. */
  datatype GuestStatus = Past | Active | InHouse | CheckedOut

  /** One search hit: guest name, room number, check-in date and status. */
  datatype SearchHit = SearchHit(guest: string, room: string, date: Day, status: GuestStatus)

  /** The cap on the number of hits returned. */
  const MaxResults: nat := 5

  /**
   * An inactive booking is past; an active one is active until checked in
   * and in-house afterwards; a checked-in booking whose room is available
   * again is checked out, whatever its active flag.
   */
  function StatusOf(b: Booking): (s: GuestStatus)
    ensures s == CheckedOut <==> b.room.state == Available && b.checkedIn
    ensures s == Past <==> !b.isActive && !(b.room.state == Available && b.checkedIn)
    ensures s == InHouse ==> b.isActive && b.checkedIn
    ensures s == Active <==> b.isActive && !b.checkedIn
  {
    var status := if b.isActive then (if !b.checkedIn then Active else InHouse) else Past;
    if b.room.state == Available && b.checkedIn then CheckedOut else status
  }

  function HitOf(b: Booking): SearchHit {
    SearchHit(FullName(b.guest), b.room.number, b.checkIn, StatusOf(b))
  }

  /** The bookings of rooms owned by `user`, in input order. */
  function TenantBookings(bookings: seq<Booking>, user: nat): (r: seq<Booking>)
    ensures |r| <= |bookings|
    ensures forall b :: b in r <==> b in bookings && b.room.owner == user
    ensures LatestFirst(bookings) ==> LatestFirst(r)
  {
    if |bookings| == 0 then []
    else
      var b := bookings[0];
      var rest := TenantBookings(bookings[1..], user);
      assert forall x :: x in bookings <==> x == b || x in bookings[1..];
      if b.room.owner == user then [b] + rest else rest
  }

  /** Every booking whose guest name matches the query, as a hit, in input order. */
  ghost function Hits(query: string, bookings: seq<Booking>): (r: seq<SearchHit>)
    ensures |r| <= |bookings|
    ensures forall h :: h in r <==> exists b :: b in bookings && Matches(FullName(b.guest), query) && h == HitOf(b)
  {
    if |bookings| == 0 then []
    else
      var b := bookings[0];
      var rest := Hits(query, bookings[1..]);
      assert forall x :: x in bookings <==> x == b || x in bookings[1..];
      if Matches(FullName(b.guest), query) then [HitOf(b)] + rest else rest
  }

  /** The empty pattern matches no name, so an empty query has no hits at all. */
  lemma {:induction false} EmptyQueryHasNoHits(bookings: seq<Booking>)
    ensures Hits("", bookings) == []
    decreases |bookings|
  {
    if |bookings| > 0 {
      EmptyQueryHasNoHits(bookings[1..]);
    }
  }

  /** The hits of a longer list begin with the hits of its prefix. */
  lemma {:induction false} HitsAppend(query: string, bookings: seq<Booking>, b: Booking)
    ensures Hits(query, bookings + [b]) == Hits(query, bookings) + (if Matches(FullName(b.guest), query) then [HitOf(b)] else [])
    decreases |bookings|
  {
    if |bookings| == 0 {
      assert [b][1..] == [];
    } else {
      assert (bookings + [b])[1..] == bookings[1..] + [b];
      HitsAppend(query, bookings[1..], b);
    }
  }

  /** The first `n` elements of `s`, or all of it when it is shorter. */
  function Take<T>(s: seq<T>, n: nat): seq<T> {
    if |s| <= n then s else s[..n]
  }

  /** Bookings listed latest check-in first, as the store delivers them. */
  predicate LatestFirst(bookings: seq<Booking>) {
    forall i, j :: 0 <= i < j < |bookings| ==> bookings[i].checkIn >= bookings[j].checkIn
  }

  /** Hits listed latest check-in date first. */
  predicate HitsLatestFirst(hits: seq<SearchHit>) {
    forall i, j :: 0 <= i < j < |hits| ==> hits[i].date >= hits[j].date
  }

  /** Hits keep the order of the bookings they come from. */
  lemma {:induction false} HitsKeepOrder(query: string, bookings: seq<Booking>)
    requires LatestFirst(bookings)
    ensures HitsLatestFirst(Hits(query, bookings))
    decreases |bookings|
  {
    if |bookings| > 0 {
      var b := bookings[0];
      var rest := Hits(query, bookings[1..]);
      HitsKeepOrder(query, bookings[1..]);
      forall h | h in rest
        ensures b.checkIn >= h.date
      {
        var b' :| b' in bookings[1..] && Matches(FullName(b'.guest), query) && h == HitOf(b');
      }
    }
  }

  /**
   * `search_guests_algo`: an empty query yields nothing; otherwise the
   * bookings of rooms owned by `user` are scanned in order and the scan
   * stops as soon as five hits are collected, so the result is the first
   * five hits among the tenant's bookings. Other tenants' bookings neither
   * appear nor use up the cap.
   */
  method SearchGuestsAlgo(query: string, allBookings: seq<Booking>, user: nat) returns (results: seq<SearchHit>)
    ensures query == "" ==> results == []
    ensures results == Take(Hits(query, TenantBookings(allBookings, user)), MaxResults)
    ensures |results| <= MaxResults
    ensures forall h :: h in results ==>
      exists b :: b in allBookings && b.room.owner == user && Matches(FullName(b.guest), query) && h == HitOf(b)
    ensures LatestFirst(allBookings) ==> HitsLatestFirst(results)
  {
    var bookings := TenantBookings(allBookings, user);
    results := ScanForHits(query, bookings);
    forall h | h in results
      ensures h in Hits(query, bookings)
    {
      var all := Hits(query, bookings);
      if |all| > MaxResults {
        var k :| 0 <= k < |results| && results[k] == h;
        assert all[k] == h;
      }
    }
  }

  /**
   * The scan of `search_guests_algo` over one tenant's bookings: stop as
   * soon as five hits are collected.
   */
  method ScanForHits(query: string, bookings: seq<Booking>) returns (results: seq<SearchHit>)
    ensures query == "" ==> results == []
    ensures results == Take(Hits(query, bookings), MaxResults)
    ensures |results| <= MaxResults
    ensures LatestFirst(bookings) ==> HitsLatestFirst(results)
  {
    results := [];
    if query == "" {
      EmptyQueryHasNoHits(bookings);
      return;
    }
    var n := 0;
    while n < |bookings|
      invariant 0 <= n <= |bookings|
      invariant results == Hits(query, bookings[..n])
      invariant |results| < MaxResults
    {
      var b := bookings[n];
      HitsAppend(query, bookings[..n], b);
      assert bookings[..n + 1] == bookings[..n] + [b];
      var isMatch := ManualStringSearch(FullName(b.guest), query);
      if isMatch {
        results := results + [HitOf(b)];
        if |results| >= MaxResults {
          TakeOfPrefix(query, bookings, n + 1);
          break;
        }
      }
      n := n + 1;
    }
    if n == |bookings| {
      assert bookings[..n] == bookings;
    }
    if LatestFirst(bookings) {
      HitsKeepOrder(query, bookings);
    }
  }

  /** Once a prefix already has five hits, the rest of the list cannot change the first five. */
  lemma TakeOfPrefix(query: string, bookings: seq<Booking>, n: nat)
    requires n <= |bookings|
    requires |Hits(query, bookings[..n])| == MaxResults
    ensures Take(Hits(query, bookings), MaxResults) == Hits(query, bookings[..n])
  {
    HitsPrefix(query, bookings, n);
  }

  /** The hits of a prefix are a prefix of the hits. */
  lemma {:induction false} HitsPrefix(query: string, bookings: seq<Booking>, n: nat)
    requires n <= |bookings|
    ensures Hits(query, bookings[..n]) <= Hits(query, bookings)
    decreases |bookings| - n
  {
    if n < |bookings| {
      HitsPrefix(query, bookings, n + 1);
      HitsAppend(query, bookings[..n], bookings[n]);
      assert bookings[..n + 1] == bookings[..n] + [bookings[n]];
    } else {
      assert bookings[..n] == bookings;
    }
  }
}
