/**
 * `manual_heapify_up` and the insertion loop of `get_room_service_heap`
 * (rooms/views.py): room-service orders are appended one at a time to an
 * array-backed binary min-heap on their timestamp and sifted up. The
 * snapshot handed out is the heap array itself, not a sorted list.
 */
module ServiceHeap {
  import opened Models

  /** The parent slot of slot `i` in a 0-indexed binary heap. */
  function Parent(i: nat): (p: nat)
    requires i > 0
    ensures p < i
  {
    (i - 1) / 2
  }

  /** Every order's timestamp is at least its parent's. */
  ghost predicate IsMinHeap(h: seq<RoomServiceOrder>) {
    forall k :: 0 < k < |h| ==> h[Parent(k)].timestamp <= h[k].timestamp
  }

  /**
   * The shape sift-up repairs: the heap order holds everywhere except
   * possibly between slot `i` and its parent, and `i`'s parent is no later
   * than `i`'s children.
   */
  ghost predicate HeapExceptAt(h: seq<RoomServiceOrder>, i: nat) {
    && i < |h|
    && (forall k :: 0 < k < |h| && k != i ==> h[Parent(k)].timestamp <= h[k].timestamp)
    && (i > 0 ==> forall k :: 0 < k < |h| && Parent(k) == i ==> h[Parent(i)].timestamp <= h[k].timestamp)
  }

  /** Orders listed in non-decreasing timestamp order. */
  ghost predicate Chronological(orders: seq<RoomServiceOrder>) {
    forall i, j :: 0 <= i < j < |orders| ==> orders[i].timestamp <= orders[j].timestamp
  }

  /**
   * `manual_heapify_up`: while the order at `i` is strictly earlier than its
   * parent, exchange the two and continue from the parent. Equal timestamps
   * stop the climb.
   */
  function HeapifyUp(h: seq<RoomServiceOrder>, i: nat): (r: seq<RoomServiceOrder>)
    requires i < |h|
    ensures |r| == |h|
    ensures multiset(r) == multiset(h)
    ensures HeapExceptAt(h, i) ==> IsMinHeap(r)
    decreases i
  {
    if i == 0 then h
    else
      var p := Parent(i);
      if h[i].timestamp < h[p].timestamp then
        var h' := h[i := h[p]][p := h[i]];
        SwapKeepsMultiset(h, p, i);
        SwapRepairs(h, i);
        HeapifyUp(h', p)
      else h
  }

  /** Exchanging two slots keeps the multiset of orders. */
  lemma SwapKeepsMultiset(h: seq<RoomServiceOrder>, p: nat, i: nat)
    requires p < i < |h|
    ensures multiset(h[i := h[p]][p := h[i]]) == multiset(h)
  {
    var h' := h[i := h[p]][p := h[i]];
    assert h == h[..p] + [h[p]] + h[p + 1..i] + [h[i]] + h[i + 1..];
    assert h' == h[..p] + [h[i]] + h[p + 1..i] + [h[p]] + h[i + 1..];
  }

  /**
   * Exchanging an order with a strictly later parent moves the only possible
   * violation one level up.
   */
  lemma SwapRepairs(h: seq<RoomServiceOrder>, i: nat)
    requires 0 < i < |h|
    requires h[i].timestamp < h[Parent(i)].timestamp
    ensures HeapExceptAt(h, i) ==> HeapExceptAt(h[i := h[Parent(i)]][Parent(i) := h[i]], Parent(i))
  {
    if !HeapExceptAt(h, i) {
      return;
    }
    var p := Parent(i);
    var h' := h[i := h[p]][p := h[i]];
    forall k | 0 < k < |h'| && k != p
      ensures h'[Parent(k)].timestamp <= h'[k].timestamp
    {
      if k == i {
      } else if Parent(k) == i {
        assert h'[k] == h[k];
      } else if Parent(k) == p {
        assert h'[k] == h[k];
        assert h[p].timestamp <= h[k].timestamp;
      } else {
        assert h'[k] == h[k];
      }
    }
    if p > 0 {
      forall k | 0 < k < |h'| && Parent(k) == p
        ensures h'[Parent(p)].timestamp <= h'[k].timestamp
      {
        assert h[Parent(p)].timestamp <= h[p].timestamp;
        if k != i {
          assert h[p].timestamp <= h[k].timestamp;
        }
      }
    }
  }

  /** Every order of a heap is no earlier than the root. */
  lemma {:induction false} RootIsMinimum(h: seq<RoomServiceOrder>, k: nat)
    requires IsMinHeap(h) && k < |h|
    ensures h[0].timestamp <= h[k].timestamp
    decreases k
  {
    if k > 0 {
      RootIsMinimum(h, Parent(k));
    }
  }

  /**
   * One step of the build loop: append the order at the next free slot and
   * sift it up. A heap stays a heap and gains exactly that order.
   */
  function Insert(h: seq<RoomServiceOrder>, o: RoomServiceOrder): (r: seq<RoomServiceOrder>)
    ensures |r| == |h| + 1
    ensures multiset(r) == multiset(h) + multiset{o}
    ensures IsMinHeap(h) ==> IsMinHeap(r)
  {
    var grown := h + [o];
    assert IsMinHeap(h) ==> HeapExceptAt(grown, |h|);
    HeapifyUp(grown, |h|)
  }

  /**
   * `get_room_service_heap`: insert every order in turn. The result holds
   * the same orders, satisfies the heap order (so its first order is the
   * earliest), and orders that already arrive in time order are left where
   * they are, because equal timestamps are never exchanged.
   */
  method RoomServiceHeap(orders: seq<RoomServiceOrder>) returns (heap: seq<RoomServiceOrder>)
    ensures multiset(heap) == multiset(orders)
    ensures IsMinHeap(heap)
    ensures forall k :: 0 <= k < |heap| ==> heap[0].timestamp <= heap[k].timestamp
    ensures Chronological(orders) ==> heap == orders
  {
    heap := [];
    for n := 0 to |orders|
      invariant |heap| == n
      invariant multiset(heap) == multiset(orders[..n])
      invariant IsMinHeap(heap)
      invariant Chronological(orders) ==> heap == orders[..n]
    {
      assert orders[..n + 1] == orders[..n] + [orders[n]];
      heap := Insert(heap, orders[n]);
    }
    assert orders[..|orders|] == orders;
    forall k | 0 <= k < |heap|
      ensures heap[0].timestamp <= heap[k].timestamp
    {
      RootIsMinimum(heap, k);
    }
  }
}
