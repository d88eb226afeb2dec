/**
 * Runs of the executor model from a fresh state, each stating what the
 * source's design promises for that sequence of steps.
 */
module ExecutorScenarios {
  import opened Wrappers
  import opened ExecutorSleepers
  import opened ExecutorQueue
  import opened TaskExecutor

  /**
   * Tasks spawned with priorities 5, 1 and 5: the first two ticks run the
   * two priority-5 tasks (in either order), the third runs the priority-1
   * task, and a fourth tick finds the queue empty.
   */
  method PriorityOrder() returns (ticks: seq<bool>, ran: seq<Runnable>)
    ensures ticks == [true, true, true, false]
    ensures ran == [10, 12, 11] || ran == [12, 10, 11]
  {
    var state := SpawnThree();
    ticks := TickFourTimes(state);
    ran := state.ran;
  }

  /** A new state after spawning (5, 10), (1, 11) and (5, 12). */
  method SpawnThree() returns (state: State)
    ensures fresh(state) && fresh(state.queue) && fresh(state.sleepers) && fresh(state.active)
    ensures state.Valid() && state.ran == []
    ensures state.queue.items == multiset{PriorityRunnable(5, 10), PriorityRunnable(1, 11), PriorityRunnable(5, 12)}
  {
    state := new State();
    var _ := state.SpawnInner(5, 10, 100);
    var _ := state.SpawnInner(1, 11, 101);
    var _ := state.SpawnInner(5, 12, 102);
  }

  /** Four ticks on the state `SpawnThree` builds. */
  method TickFourTimes(state: State) returns (ticks: seq<bool>)
    requires state.Valid() && state.ran == []
    requires state.queue.items == multiset{PriorityRunnable(5, 10), PriorityRunnable(1, 11), PriorityRunnable(5, 12)}
    modifies state.queue, state`notified, state`woken, state`ran, state.sleepers`wakers
    ensures ticks == [true, true, true, false]
    ensures state.ran == [10, 12, 11] || state.ran == [12, 10, 11]
  {
    var t1, x1 := TickFirst(state);
    var t2, x2 := TickSecond(state, x1);
    var t3 := TickLast(state);
    var t4 := state.TryTick();
    ticks := [t1, t2, t3, t4];
  }

  /** The first tick runs one of the two priority-5 tasks. */
  method TickFirst(state: State) returns (r: bool, ghost x1: PriorityRunnable)
    requires state.Valid()
    requires state.queue.items == multiset{PriorityRunnable(5, 10), PriorityRunnable(1, 11), PriorityRunnable(5, 12)}
    modifies state.queue, state`notified, state`woken, state`ran, state.sleepers`wakers
    ensures state.Valid() && r && state.ran == old(state.ran) + [x1.runnable]
    ensures x1 == PriorityRunnable(5, 10) || x1 == PriorityRunnable(5, 12)
    ensures state.queue.items == if x1.runnable == 10 then multiset{PriorityRunnable(1, 11), PriorityRunnable(5, 12)}
                                 else multiset{PriorityRunnable(5, 10), PriorityRunnable(1, 11)}
  {
    r, x1 := Tick(state);
    FirstPop(old(state.queue.items), x1, state.queue.items);
  }

  /** The second tick runs the other priority-5 task. */
  method TickSecond(state: State, ghost x1: PriorityRunnable) returns (r: bool, ghost x2: PriorityRunnable)
    requires state.Valid()
    requires x1 == PriorityRunnable(5, 10) || x1 == PriorityRunnable(5, 12)
    requires state.queue.items == if x1.runnable == 10 then multiset{PriorityRunnable(1, 11), PriorityRunnable(5, 12)}
                                  else multiset{PriorityRunnable(5, 10), PriorityRunnable(1, 11)}
    modifies state.queue, state`notified, state`woken, state`ran, state.sleepers`wakers
    ensures state.Valid() && r && state.ran == old(state.ran) + [x2.runnable]
    ensures (x1.runnable, x2.runnable) == (10, 12) || (x1.runnable, x2.runnable) == (12, 10)
    ensures state.queue.items == multiset{PriorityRunnable(1, 11)}
  {
    r, x2 := Tick(state);
    SecondPop(x1, old(state.queue.items), x2, state.queue.items);
  }

  /** The third tick runs the priority-1 task and empties the queue. */
  method TickLast(state: State) returns (r: bool)
    requires state.Valid() && state.queue.items == multiset{PriorityRunnable(1, 11)}
    modifies state.queue, state`notified, state`woken, state`ran, state.sleepers`wakers
    ensures state.Valid() && r && state.ran == old(state.ran) + [11] && state.queue.items == multiset{}
  {
    ghost var x3;
    r, x3 := Tick(state);
    LastPop(old(state.queue.items), x3);
  }

  /** `State::try_tick`, naming the item it takes. */
  method Tick(state: State) returns (r: bool, ghost item: PriorityRunnable)
    requires state.Valid()
    modifies state.queue, state`notified, state`woken, state`ran, state.sleepers`wakers
    ensures state.Valid()
    ensures r <==> old(state.queue.items) != multiset{}
    ensures !r ==> state.queue.items == old(state.queue.items) && state.ran == old(state.ran)
    ensures r ==> && IsMax(item, old(state.queue.items))
                  && state.queue.items == old(state.queue.items) - multiset{item}
                  && state.ran == old(state.ran) + [item.runnable]
  {
    r := state.TryTick();
    if r {
      item :| IsMax(item, old(state.queue.items)) && state.queue.items == old(state.queue.items) - multiset{item}
        && state.ran == old(state.ran) + [item.runnable];
    } else {
      item := PriorityRunnable(0, 0);
    }
  }

  /** The last pop takes the 1 and leaves the queue empty. */
  lemma LastPop(q2: multiset<PriorityRunnable>, x3: PriorityRunnable)
    requires q2 == multiset{PriorityRunnable(1, 11)} && IsMax(x3, q2)
    ensures x3.runnable == 11 && q2 - multiset{x3} == multiset{}
  {
  }

  /** The first pop from {(5, 10), (1, 11), (5, 12)} takes one of the two 5s. */
  lemma FirstPop(q0: multiset<PriorityRunnable>, x1: PriorityRunnable, q1: multiset<PriorityRunnable>)
    requires q0 == multiset{PriorityRunnable(5, 10), PriorityRunnable(1, 11), PriorityRunnable(5, 12)}
    requires IsMax(x1, q0) && q1 == q0 - multiset{x1}
    ensures x1 == PriorityRunnable(5, 10) || x1 == PriorityRunnable(5, 12)
    ensures q1 == if x1.runnable == 10 then multiset{PriorityRunnable(1, 11), PriorityRunnable(5, 12)}
                  else multiset{PriorityRunnable(5, 10), PriorityRunnable(1, 11)}
  {
    assert x1.priority >= 5;
  }

  /** The second pop takes the other 5, leaving only the 1. */
  lemma SecondPop(x1: PriorityRunnable, q1: multiset<PriorityRunnable>, x2: PriorityRunnable, q2: multiset<PriorityRunnable>)
    requires x1 == PriorityRunnable(5, 10) || x1 == PriorityRunnable(5, 12)
    requires q1 == if x1.runnable == 10 then multiset{PriorityRunnable(1, 11), PriorityRunnable(5, 12)}
                   else multiset{PriorityRunnable(5, 10), PriorityRunnable(1, 11)}
    requires IsMax(x2, q1) && q2 == q1 - multiset{x2}
    ensures (x1.runnable, x2.runnable) == (10, 12) || (x1.runnable, x2.runnable) == (12, 10)
    ensures q2 == multiset{PriorityRunnable(1, 11)}
  {
    var a, b, c := PriorityRunnable(5, 10), PriorityRunnable(1, 11), PriorityRunnable(5, 12);
    if x1 == a {
      assert c in q1;
      assert x2.priority >= 5;
      assert x2 == c;
    } else {
      assert a in q1;
      assert x2.priority >= 5;
      assert x2 == a;
    }
  }

  /**
   * No lost wakeup: a ticker that finds nothing to run goes to sleep with
   * its waker registered; spawning a task wakes exactly that waker, and
   * the ticker's next poll returns the task.
   */
  method NoLostWakeup() returns (firstPoll: Option<Runnable>, wokenBySpawn: seq<Waker>, secondPoll: Option<Runnable>)
    ensures firstPoll == None
    ensures wokenBySpawn == [100]
    ensures secondPoll == Some(7)
  {
    var state := new State();
    var ticker := new Ticker(state);
    firstPoll := ticker.PollRunnable(100);
    assert state.sleepers.count == 1 && state.sleepers.wakers == [SleeperEntry(ticker.sleeping, 100)];
    assert !state.notified;
    var _ := state.SpawnInner(3, 7, 200);
    wokenBySpawn := state.woken;
    ghost var queued := state.queue.items;
    assert queued == multiset{PriorityRunnable(3, 7)};
    secondPoll := ticker.PollRunnable(100);
    assert secondPoll.Some?;
    ghost var item :| IsMax(item, queued) && item.runnable == secondPoll.value;
    assert item == PriorityRunnable(3, 7);
    assert secondPoll.value == 7;
    assert secondPoll == Some(7);
  }

  /**
   * A notified ticker that is dropped passes its notification on: two
   * tickers sleep, a spawn notifies the later one, and dropping that one
   * wakes the other.
   */
  method DroppedTickerForwardsWakeup() returns (woken: seq<Waker>)
    ensures woken == [200, 100]
  {
    var state := new State();
    var first := new Ticker(state);
    var second := new Ticker(state);
    var _ := first.PollRunnable(100);
    var _ := second.PollRunnable(200);
    var _ := state.SpawnInner(0, 7, 300);
    second.Drop();
    woken := state.woken;
  }
}
