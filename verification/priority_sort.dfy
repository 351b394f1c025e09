/**
 * `manual_priority_sort` (rooms/views.py): a bubble sort of pending
 * maintenance tasks by priority, with ties broken on the creation timestamp
 * when both tasks carry one. Modelled on a sequence value; a ghost
 * permutation records where every output task came from.
 */
module PrioritySort {
  import opened Base
  import opened Models

  /**
   * The test of one bubble step: `a` must move behind its right neighbour
   * `b`. It never moves a more urgent task behind a less urgent one, and
   * never fires between equal priorities when either task lacks a timestamp
   * or both carry the same one.
   */
  predicate ShouldSwap(a: MaintenanceTask, b: MaintenanceTask)
    ensures ShouldSwap(a, b) ==> a.priority >= b.priority
    ensures a.priority == b.priority && (a.createdAt.None? || b.createdAt.None?) ==> !ShouldSwap(a, b)
    ensures a.priority == b.priority && a.createdAt == b.createdAt ==> !ShouldSwap(a, b)
  {
    || a.priority > b.priority
    || (a.priority == b.priority && a.createdAt.Some? && b.createdAt.Some?
        && a.createdAt.value > b.createdAt.value)
  }

  /** Every task carries a creation timestamp. */
  predicate Stamped(tasks: seq<MaintenanceTask>) {
    forall k :: 0 <= k < |tasks| ==> tasks[k].createdAt.Some?
  }

  /** Priorities never decrease from left to right. */
  predicate PrioritySorted(tasks: seq<MaintenanceTask>) {
    forall i, j :: 0 <= i < j < |tasks| ==> tasks[i].priority <= tasks[j].priority
  }

  /** No task sits before another it would be swapped behind. */
  predicate Ordered(tasks: seq<MaintenanceTask>) {
    forall i, j :: 0 <= i < j < |tasks| ==> !ShouldSwap(tasks[i], tasks[j])
  }

  /** `perm` is a permutation of the positions `0 .. n-1`. */
  predicate IsPermutation(perm: seq<nat>, n: nat) {
    && |perm| == n
    && (forall k :: 0 <= k < n ==> perm[k] < n)
    && (forall i, j :: 0 <= i < j < n ==> perm[i] != perm[j])
  }

  /** `t` lists the tasks of `s`, task `t[k]` coming from position `perm[k]`. */
  predicate Rearranges(t: seq<MaintenanceTask>, s: seq<MaintenanceTask>, perm: seq<nat>) {
    && |t| == |s|
    && IsPermutation(perm, |s|)
    && (forall k :: 0 <= k < |t| ==> t[k] == s[perm[k]])
  }

  /**
   * Stability: two tasks end up in the opposite of their input order only if
   * the one that came first had to be swapped behind the other.
   */
  predicate OnlyInversionsReversed(t: seq<MaintenanceTask>, perm: seq<nat>)
    requires |perm| == |t|
  {
    forall i, j :: 0 <= i < j < |t| && perm[i] > perm[j] ==> ShouldSwap(t[j], t[i])
  }

  /** The swap test never fires in both directions. */
  lemma SwapAsymmetric(a: MaintenanceTask, b: MaintenanceTask)
    ensures ShouldSwap(a, b) ==> !ShouldSwap(b, a)
  {
  }

  /**
   * Among stamped tasks the swap test is a strict weak order: "may stay in
   * front" is transitive.
   */
  lemma StayTransitive(a: MaintenanceTask, b: MaintenanceTask, c: MaintenanceTask)
    requires a.createdAt.Some? && b.createdAt.Some? && c.createdAt.Some?
    requires !ShouldSwap(a, b) && !ShouldSwap(b, c)
    ensures !ShouldSwap(a, c)
  {
  }

  /** Exchanging two adjacent positions of a sequence. */
  function SwapAt<T>(s: seq<T>, j: nat): (r: seq<T>)
    requires j + 1 < |s|
    ensures |r| == |s|
    ensures r[j] == s[j + 1] && r[j + 1] == s[j]
    ensures forall k :: 0 <= k < |s| && k != j && k != j + 1 ==> r[k] == s[k]
    ensures multiset(r) == multiset(s)
  {
    var r := s[j := s[j + 1]][j + 1 := s[j]];
    assert r == s[..j] + [s[j + 1], s[j]] + s[j + 2..];
    assert s == s[..j] + [s[j], s[j + 1]] + s[j + 2..];
    r
  }

  /** Every task left of `hi + 1` has a priority no larger than every task right of `hi`. */
  predicate PriorityPartitioned(t: seq<MaintenanceTask>, hi: nat) {
    forall x, y :: 0 <= x <= hi < y < |t| ==> t[x].priority <= t[y].priority
  }

  /** No task left of `hi + 1` would be swapped behind a task right of `hi`. */
  predicate OrderPartitioned(t: seq<MaintenanceTask>, hi: nat) {
    forall x, y :: 0 <= x <= hi < y < |t| ==> !ShouldSwap(t[x], t[y])
  }

  /** `t[j]` has the largest priority of `t[..j+1]`. */
  predicate PriorityMaxAt(t: seq<MaintenanceTask>, j: nat) {
    j < |t| && forall k :: 0 <= k <= j ==> t[k].priority <= t[j].priority
  }

  /** No task of `t[..j]` would be swapped behind `t[j]`. */
  predicate OrderMaxAt(t: seq<MaintenanceTask>, j: nat) {
    j < |t| && forall k :: 0 <= k < j ==> !ShouldSwap(t[k], t[j])
  }

  /** Swapping adjacent positions of the tasks and of the permutation keeps the rearrangement. */
  lemma SwapKeepsRearranges(t: seq<MaintenanceTask>, s: seq<MaintenanceTask>, perm: seq<nat>, j: nat)
    requires Rearranges(t, s, perm) && j + 1 < |t|
    ensures Rearranges(SwapAt(t, j), s, SwapAt(perm, j))
  {
    var t', p' := SwapAt(t, j), SwapAt(perm, j);
    forall a, b | 0 <= a < b < |s|
      ensures p'[a] != p'[b]
    {
      var a0 := if a == j then j + 1 else if a == j + 1 then j else a;
      var b0 := if b == j then j + 1 else if b == j + 1 then j else b;
      assert p'[a] == perm[a0] && p'[b] == perm[b0] && a0 != b0;
      if a0 > b0 {
        assert perm[b0] != perm[a0];
      }
    }
  }

  /** Swapping a strict inversion keeps the stability invariant. */
  lemma SwapKeepsStability(t: seq<MaintenanceTask>, perm: seq<nat>, j: nat)
    requires |perm| == |t| && j + 1 < |t|
    requires OnlyInversionsReversed(t, perm)
    requires ShouldSwap(t[j], t[j + 1])
    ensures OnlyInversionsReversed(SwapAt(t, j), SwapAt(perm, j))
  {
    var t', p' := SwapAt(t, j), SwapAt(perm, j);
    forall a, b | 0 <= a < b < |t'| && p'[a] > p'[b]
      ensures ShouldSwap(t'[b], t'[a])
    {
      if a == j && b == j + 1 {
        assert p'[a] == perm[j + 1] && p'[b] == perm[j];
      } else {
        var a0 := if a == j then j + 1 else if a == j + 1 then j else a;
        var b0 := if b == j then j + 1 else if b == j + 1 then j else b;
        assert a0 < b0;
        assert p'[a] == perm[a0] && p'[b] == perm[b0];
        assert t'[a] == t[a0] && t'[b] == t[b0];
      }
    }
  }

  /** The swap at `(j, j+1)` moves the running maximum to `j + 1` and stays inside `..hi`. */
  lemma SwapKeepsMaxima(t: seq<MaintenanceTask>, j: nat, hi: nat, stamped: bool)
    requires j < hi < |t|
    requires ShouldSwap(t[j], t[j + 1])
    requires PriorityPartitioned(t, hi) && PriorityMaxAt(t, j)
    requires stamped ==> OrderPartitioned(t, hi) && OrderMaxAt(t, j)
    ensures PriorityPartitioned(SwapAt(t, j), hi) && PriorityMaxAt(SwapAt(t, j), j + 1)
    ensures stamped ==> OrderPartitioned(SwapAt(t, j), hi) && OrderMaxAt(SwapAt(t, j), j + 1)
  {
  }

  /** Without a swap the running maximum is `t[j+1]`: for stamped tasks this needs transitivity. */
  lemma StayKeepsMaxima(t: seq<MaintenanceTask>, j: nat, hi: nat, stamped: bool)
    requires j < hi < |t|
    requires !ShouldSwap(t[j], t[j + 1])
    requires stamped ==> forall k :: 0 <= k < |t| ==> t[k].createdAt.Some?
    requires PriorityMaxAt(t, j)
    requires stamped ==> OrderMaxAt(t, j)
    ensures PriorityMaxAt(t, j + 1)
    ensures stamped ==> OrderMaxAt(t, j + 1)
  {
    if stamped {
      forall k | 0 <= k < j
        ensures !ShouldSwap(t[k], t[j + 1])
      {
        StayTransitive(t[k], t[j], t[j + 1]);
      }
    }
  }

  /** A rearrangement of stamped tasks is stamped. */
  lemma RearrangedStamped(t: seq<MaintenanceTask>, s: seq<MaintenanceTask>, perm: seq<nat>)
    requires Rearranges(t, s, perm) && Stamped(s)
    ensures Stamped(t)
  {
    forall k | 0 <= k < |t|
      ensures t[k].createdAt.Some?
    {
      assert t[k] == s[perm[k]];
    }
  }

  /**
   * One pass of the inner loop: compares positions `(j, j+1)` for
   * `j = 0 .. hi-1` and swaps strict inversions, carrying the largest task
   * of `a[..hi+1]` to position `hi` and leaving the tail alone.
   */
  method BubblePass(a: seq<MaintenanceTask>, ghost s: seq<MaintenanceTask>, ghost perm: seq<nat>, hi: nat)
    returns (b: seq<MaintenanceTask>, ghost perm': seq<nat>)
    requires hi < |a|
    requires Rearranges(a, s, perm) && OnlyInversionsReversed(a, perm)
    requires PriorityPartitioned(a, hi)
    requires Stamped(s) ==> OrderPartitioned(a, hi)
    ensures Rearranges(b, s, perm') && OnlyInversionsReversed(b, perm')
    ensures multiset(b) == multiset(a)
    ensures b[hi + 1..] == a[hi + 1..]
    ensures PriorityPartitioned(b, hi) && PriorityMaxAt(b, hi)
    ensures Stamped(s) ==> OrderPartitioned(b, hi) && OrderMaxAt(b, hi)
  {
    ghost var stamped := Stamped(s);
    b, perm' := a, perm;
    var j := 0;
    while j < hi
      invariant 0 <= j <= hi
      invariant Rearranges(b, s, perm') && OnlyInversionsReversed(b, perm')
      invariant multiset(b) == multiset(a)
      invariant b[hi + 1..] == a[hi + 1..]
      invariant PriorityPartitioned(b, hi) && PriorityMaxAt(b, j)
      invariant stamped ==> OrderPartitioned(b, hi) && OrderMaxAt(b, j)
    {
      if ShouldSwap(b[j], b[j + 1]) {
        SwapKeepsRearranges(b, s, perm', j);
        SwapKeepsStability(b, perm', j);
        SwapKeepsMaxima(b, j, hi, stamped);
        b, perm' := SwapAt(b, j), SwapAt(perm', j);
      } else {
        if stamped {
          RearrangedStamped(b, s, perm');
        }
        StayKeepsMaxima(b, j, hi, stamped);
      }
      j := j + 1;
    }
  }

  /** After the pass that ends at `hi`, the sorted tail grows to start at `hi`. */
  lemma PassGrowsTail(t: seq<MaintenanceTask>, hi: nat, stamped: bool)
    requires hi < |t|
    requires PriorityPartitioned(t, hi) && PriorityMaxAt(t, hi)
    requires forall x, y :: 0 <= x < y < |t| && hi + 1 <= y ==> t[x].priority <= t[y].priority
    requires stamped ==> OrderPartitioned(t, hi) && OrderMaxAt(t, hi)
    requires stamped ==> forall x, y :: 0 <= x < y < |t| && hi + 1 <= y ==> !ShouldSwap(t[x], t[y])
    ensures forall x, y :: 0 <= x < y < |t| && hi <= y ==> t[x].priority <= t[y].priority
    ensures stamped ==> forall x, y :: 0 <= x < y < |t| && hi <= y ==> !ShouldSwap(t[x], t[y])
  {
  }

  /**
   * The whole sort. The output is a rearrangement of the input, priorities
   * never decrease, a pair of tasks is reversed only when it was a strict
   * inversion (stability), and when every task is stamped the output is in
   * (priority, created-at) order.
   */
  method ManualPrioritySort(tasks: seq<MaintenanceTask>) returns (r: seq<MaintenanceTask>, ghost perm: seq<nat>)
    ensures Rearranges(r, tasks, perm)
    ensures multiset(r) == multiset(tasks)
    ensures PrioritySorted(r)
    ensures Stamped(tasks) ==> Ordered(r)
    ensures OnlyInversionsReversed(r, perm)
    ensures |tasks| <= 1 ==> r == tasks
  {
    var n := |tasks|;
    perm := seq(n, k requires 0 <= k < n => k);
    r := tasks;
    if n <= 1 {
      return;
    }
    ghost var stamped := Stamped(tasks);
    for i := 0 to n
      invariant Rearranges(r, tasks, perm) && OnlyInversionsReversed(r, perm)
      invariant multiset(r) == multiset(tasks)
      invariant forall x, y :: 0 <= x < y < |r| && n - i <= y ==> r[x].priority <= r[y].priority
      invariant stamped ==> forall x, y :: 0 <= x < y < |r| && n - i <= y ==> !ShouldSwap(r[x], r[y])
    {
      var hi := n - i - 1;
      ghost var before := r;
      r, perm := BubblePass(r, tasks, perm, hi);
      assert forall y :: hi + 1 <= y < n ==> r[y] == before[y] by {
        assert r[hi + 1..] == before[hi + 1..];
      }
      PassGrowsTail(r, hi, stamped);
    }
  }
}
