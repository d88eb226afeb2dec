/**
 * The executor's run queue: runnables tagged with a priority, kept in a
 * max-heap that compares them by priority alone.  The heap is modelled by
 * the multiset of its items; which of several equal-priority items a pop
 * returns is left open, as the heap leaves it unspecified.
 */
module ExecutorQueue {
  import opened Wrappers

  /** A `Runnable`, known only by its identity. */
  type Runnable = nat

  /** `PriorityRunnable`: a runnable and its `isize` priority. */
  datatype PriorityRunnable = PriorityRunnable(priority: int, runnable: Runnable)

  datatype Ordering = Less | Equal | Greater

  /** `Ord::cmp` of `PriorityRunnable`: the comparison of the two priorities. */
  function Compare(a: PriorityRunnable, b: PriorityRunnable): (r: Ordering)
    ensures r == Less <==> a.priority < b.priority
    ensures r == Equal <==> a.priority == b.priority
    ensures r == Greater <==> a.priority > b.priority
  {
    if a.priority < b.priority then Less
    else if a.priority == b.priority then Equal
    else Greater
  }

  /** `PartialEq` of `PriorityRunnable`: equal priorities, whatever the runnables. */
  predicate SamePriority(a: PriorityRunnable, b: PriorityRunnable) {
    a.priority == b.priority
  }

  function Reverse(o: Ordering): Ordering {
    match o
    case Less => Greater
    case Equal => Equal
    case Greater => Less
  }

  /** The comparison is a total preorder: antisymmetric, transitive, and consistent with `eq`. */
  lemma CompareIsTotalPreorder(a: PriorityRunnable, b: PriorityRunnable, c: PriorityRunnable)
    ensures Compare(b, a) == Reverse(Compare(a, b))
    ensures Compare(a, b) == Equal <==> SamePriority(a, b)
    ensures Compare(a, b) != Greater && Compare(b, c) != Greater ==> Compare(a, c) != Greater
  {
  }

  /** `item` has the greatest priority in `items`. */
  predicate IsMax(item: PriorityRunnable, items: multiset<PriorityRunnable>) {
    item in items && forall other :: other in items ==> other.priority <= item.priority
  }

  /** Every non-empty queue has an item of greatest priority. */
  lemma {:induction false} MaxExists(items: multiset<PriorityRunnable>)
    requires items != multiset{}
    ensures exists item :: IsMax(item, items)
    decreases |items|
  {
    var x :| x in items;
    var rest := items - multiset{x};
    forall other | other in items && other != x
      ensures other in rest
    {
      assert rest[other] == items[other];
    }
    if rest == multiset{} {
      assert IsMax(x, items);
    } else {
      MaxExists(rest);
      var m :| IsMax(m, rest);
      if m.priority < x.priority {
        assert IsMax(x, items);
      } else {
        assert IsMax(m, items);
      }
    }
  }

  /** `ConcurrentPriorityQueue`: the locked `BinaryHeap<PriorityRunnable>`. */
  class PriorityQueue {
    var items: multiset<PriorityRunnable>

    constructor ()
      ensures items == multiset{}
    {
      items := multiset{};
    }

    /** `BinaryHeap::push`. */
    method Push(item: PriorityRunnable)
      modifies this
      ensures items == old(items) + multiset{item}
    {
      items := items + multiset{item};
    }

    /**
     * `BinaryHeap::pop`: nothing from an empty queue, else one item of
     * greatest priority, which leaves the queue.
     */
    method Pop() returns (r: Option<PriorityRunnable>)
      modifies this
      ensures r.None? <==> old(items) == multiset{}
      ensures r.None? ==> items == old(items)
      ensures r.Some? ==> IsMax(r.value, old(items)) && items == old(items) - multiset{r.value}
    {
      if items == multiset{} {
        return None;
      }
      MaxExists(items);
      var item :| IsMax(item, items);
      items := items - multiset{item};
      return Some(item);
    }

    /** `BinaryHeap::clear`. */
    method Clear()
      modifies this
      ensures items == multiset{}
    {
      items := multiset{};
    }
  }
}
