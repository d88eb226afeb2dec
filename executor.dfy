/**
 * The priority executor: the shared `State` (run queue, `notified` flag,
 * sleeper registry and active-task registry), the `Ticker` that moves
 * between woken and sleeping, the `Executor` whose state is allocated on
 * first use, and the `LocalExecutor` that spawns many tasks at once.
 *
 * Each step the source takes under one of its mutexes is one method here;
 * the model is sequential.  `Waker::wake` calls are recorded in `woken` and
 * `Runnable::run` calls in `ran`.
 */
module TaskExecutor {
  import opened Wrappers
  import opened ExecutorSleepers
  import opened ExecutorQueue
  import opened ExecutorSlab

  /** The executor state shared by the executor, its tickers and its schedule closures. */
  class State {
    const queue: PriorityQueue
    const sleepers: Sleepers
    const active: Slab<Waker>
    /** Mirrors the registry's test: no ticker sleeps, or one of the sleepers holds a notification. */
    var notified: bool
    /** Every `Waker::wake` call, in order. */
    var woken: seq<Waker>
    /** Every `Runnable::run` call, in order. */
    var ran: seq<Runnable>

    /**
     * The registries keep their invariants, and between locked steps the
     * `notified` flag agrees with the registry's own test.
     */
    ghost predicate Valid()
      reads this, sleepers, active
    {
      && sleepers.Valid()
      && active.Valid()
      && notified == sleepers.IsNotifiedNow()
    }

    /**
     * No lost wakeup: while a runnable is queued the flag is set, so some
     * sleeping ticker has been notified or none sleeps.
     */
    ghost predicate WorkAnnounced()
      reads this, queue
    {
      queue.items != multiset{} ==> notified
    }

    /** `State::new`. */
    constructor ()
      ensures Valid()
      ensures fresh(queue) && fresh(sleepers) && fresh(active)
      ensures queue.items == multiset{} && active.entries == map[] && active.slots == 0
      ensures sleepers.count == 0 && sleepers.wakers == [] && sleepers.sleeping == {}
      ensures notified && woken == [] && ran == []
    {
      queue := new PriorityQueue();
      sleepers := new Sleepers();
      active := new Slab();
      notified := true;
      woken, ran := [], [];
    }

    /**
     * `State::notify`: only a false-to-true change of the flag reaches the
     * registry, and then it wakes exactly one sleeping ticker, the most
     * recently registered unnotified one.
     */
    method Notify()
      requires Valid()
      modifies this`notified, this`woken, sleepers`wakers
      ensures Valid() && notified
      ensures NotifyEffect(old(notified), old(woken), old(sleepers.wakers), woken, sleepers.wakers)
    {
      if !notified {
        WakersBounded(sleepers.count, sleepers.wakers, sleepers.freeIds, sleepers.sleeping);
        notified := true;
        var w := sleepers.Notify();
        if w.Some? {
          woken := woken + [w.value];
        }
      }
    }

    /** The closure `Executor::schedule(priority)` builds: queue the runnable, then notify. */
    method Schedule(item: PriorityRunnable)
      requires Valid()
      modifies queue, this`notified, this`woken, sleepers`wakers
      ensures Valid() && notified
      ensures queue.items == old(queue.items) + multiset{item}
      ensures WorkAnnounced()
      ensures NotifyEffect(old(notified), old(woken), old(sleepers.wakers), woken, sleepers.wakers)
    {
      queue.Push(item);
      Notify();
    }

    /**
     * `State::try_tick`: false on an empty queue; otherwise one item of
     * greatest priority leaves the queue, another ticker is notified, and
     * the item is run.
     */
    method TryTick() returns (r: bool)
      requires Valid()
      modifies queue, this`notified, this`woken, this`ran, sleepers`wakers
      ensures Valid()
      ensures r <==> old(queue.items) != multiset{}
      ensures !r ==> (queue.items == old(queue.items) && ran == old(ran)
                   && woken == old(woken) && notified == old(notified)
                   && sleepers.wakers == old(sleepers.wakers))
      ensures r ==> notified && exists item ::
        && IsMax(item, old(queue.items))
        && queue.items == old(queue.items) - multiset{item}
        && ran == old(ran) + [item.runnable]
      ensures r ==> NotifyEffect(old(notified), old(woken), old(sleepers.wakers), woken, sleepers.wakers)
      ensures WorkAnnounced()
    {
      var popped := queue.Pop();
      if popped.Some? {
        // The notification precedes the run, so another ticker may take the next item meanwhile
        Notify();
        ran := ran + [popped.value.runnable];
      }
      r := popped.Some?;
    }

    /**
     * `Executor::spawn_inner`: the task's waker takes the slab's vacant key,
     * and the runnable is scheduled once with the task's priority.  The
     * runnable and its waker, which `async_task` creates, are parameters.
     */
    method SpawnInner(priority: int, runnable: Runnable, waker: Waker) returns (key: nat)
      requires Valid()
      modifies active, queue, this`notified, this`woken, sleepers`wakers
      ensures Valid() && notified
      ensures key == old(active.VacantKey()) && key !in old(active.entries)
      ensures active.entries == old(active.entries)[key := waker]
      ensures queue.items == old(queue.items) + multiset{PriorityRunnable(priority, runnable)}
      ensures WorkAnnounced()
      ensures NotifyEffect(old(notified), old(woken), old(sleepers.wakers), woken, sleepers.wakers)
    {
      key := active.Insert(waker);
      Schedule(PriorityRunnable(priority, runnable));
    }

    /**
     * The loop of `spawn_many` under the active-set lock: each task in turn
     * takes the vacant key and is scheduled.
     */
    method SpawnBatch(tasks: seq<TaskSpec>) returns (keys: seq<nat>)
      requires Valid()
      modifies active, queue, this`notified, this`woken, sleepers`wakers
      ensures Valid()
      ensures BatchSpawned(old(active.entries), old(queue.items), tasks, keys, active.entries, queue.items)
      ensures notified == (old(notified) || |tasks| > 0)
      ensures NotifyEffect(old(notified) || |tasks| == 0, old(woken), old(sleepers.wakers), woken, sleepers.wakers)
      ensures old(WorkAnnounced()) ==> WorkAnnounced()
    {
      ghost var m0, q0 := active.entries, queue.items;
      ghost var n0, w0, ws0 := notified, woken, sleepers.wakers;
      keys := [];
      var i := 0;
      while i < |tasks|
        invariant 0 <= i <= |tasks|
        invariant Valid()
        invariant BatchSpawned(m0, q0, tasks[..i], keys, active.entries, queue.items)
        invariant notified == (n0 || i > 0)
        invariant NotifyEffect(n0 || i == 0, w0, ws0, woken, sleepers.wakers)
      {
        ghost var m, q := active.entries, queue.items;
        ghost var w, ws := woken, sleepers.wakers;
        var key := SpawnInner(tasks[i].priority, tasks[i].runnable, tasks[i].waker);
        if i > 0 {
          assert woken == w && sleepers.wakers == ws;
        }
        assert tasks[..i + 1][..i] == tasks[..i];
        BatchSpawnedStep(m0, q0, tasks[..i + 1], keys, key, m, active.entries, q, queue.items);
        keys := keys + [key];
        i := i + 1;
      }
      assert tasks[..|tasks|] == tasks;
    }

    /** The `AsyncCallOnDrop` cleanup of a finished task: its slot leaves the active set. */
    method FinishTask(key: nat)
      requires Valid()
      modifies active
      ensures Valid()
      ensures active.entries == old(active.entries) - {key}
      ensures WorkAnnounced() == old(WorkAnnounced())
    {
      var _ := active.TryRemove(key);
    }
  }

  /**
   * A valid state that announces its work and has a runnable queued has no
   * ticker left to find it: either none sleeps or some sleeping ticker has
   * already been notified and left the wakers list.
   */
  lemma WorkAnnouncedMeaning(s: State)
    requires s.Valid() && s.WorkAnnounced() && s.queue.items != multiset{}
    ensures s.sleepers.count == 0
            || exists id :: id in s.sleepers.sleeping && id !in Ids(s.sleepers.wakers)
  {
    IsNotifiedMeaning(s.sleepers.count, s.sleepers.wakers, s.sleepers.freeIds, s.sleepers.sleeping);
  }

  /**
   * What `State::notify` does to the wake log and the registry's wakers when
   * it finds the flag `flag`: nothing once the flag is set; otherwise the
   * most recently registered unnotified waker leaves the registry and is woken.
   */
  predicate NotifyEffect(flag: bool, woken: seq<Waker>, ws: seq<SleeperEntry>, woken': seq<Waker>, ws': seq<SleeperEntry>) {
    if flag then woken' == woken && ws' == ws
    else |ws| > 0 && woken' == woken + [ws[|ws| - 1].waker] && ws' == ws[..|ws| - 1]
  }

  /**
   * A ticker that finds a task wakes and then notifies: ticker `sleeping`
   * (0 if woken) leaves a registry of `count` sleepers with wakers `ws`, and
   * `notify` then acts on the flag the smaller registry gives.
   */
  predicate WakeToRunEffect(sleeping: nat, count: nat, ws: seq<SleeperEntry>,
                            woken: seq<Waker>, woken': seq<Waker>, ws': seq<SleeperEntry>) {
    var rest := if sleeping == 0 then ws else Without(ws, sleeping);
    var left := if sleeping == 0 || count == 0 then count else count - 1;
    NotifyEffect(IsNotified(left, rest), woken, rest, woken', ws')
  }

  /** The measure of `runnable_with`'s loop: how many more sleeps can report success. */
  function SleepBudget(sleeping: nat, wakers: seq<SleeperEntry>): nat {
    if sleeping == 0 then 2 else if sleeping in Ids(wakers) then 0 else 1
  }

  /**
   * How a sleeping ticker `id` that ends a poll pending has re-registered
   * `waker`: an entry it still had is overwritten in place; a notified
   * ticker, which had none, gets a new last entry.
   */
  predicate Reregistered(ws: seq<SleeperEntry>, id: nat, waker: Waker, ws': seq<SleeperEntry>) {
    if id in Ids(ws) then exists i :: 0 <= i < |ws| && ws[i].id == id && ws' == ws[i := SleeperEntry(id, waker)]
    else ws' == ws + [SleeperEntry(id, waker)]
  }

  /** Re-registering keeps every other sleeper's entry, and leaves `id` with `waker`. */
  lemma ReregisteredKeepsOthers(ws: seq<SleeperEntry>, id: nat, waker: Waker, ws': seq<SleeperEntry>)
    requires Reregistered(ws, id, waker, ws')
    ensures SleeperEntry(id, waker) in ws'
    ensures forall e :: e in ws && e.id != id ==> e in ws'
  {
    if id in Ids(ws) {
      var i :| 0 <= i < |ws| && ws[i].id == id && ws' == ws[i := SleeperEntry(id, waker)];
      forall e | e in ws && e.id != id ensures e in ws' {
        var j :| 0 <= j < |ws| && ws[j] == e;
        assert ws'[j] == e;
      }
      assert ws'[i] == SleeperEntry(id, waker);
    } else {
      assert ws'[|ws|] == SleeperEntry(id, waker);
    }
  }

  /** `Ticker`: runs tasks one by one; `sleeping` is 0 when woken, else the sleeper id. */
  class Ticker {
    const state: State
    var sleeping: nat

    ghost predicate Valid()
      reads this, state, state.sleepers, state.active
    {
      state.Valid() && (sleeping != 0 ==> sleeping in state.sleepers.sleeping)
    }

    /** `Ticker::new`: a woken ticker. */
    constructor (state: State)
      requires state.Valid()
      ensures Valid() && this.state == state && sleeping == 0
    {
      this.state := state;
      sleeping := 0;
    }

    /**
     * `Ticker::sleep`: a woken ticker registers as sleeping and unnotified;
     * a sleeping one re-registers if it was notified.  A ticker already
     * sleeping and unnotified gets false and the flag is left alone;
     * otherwise the flag is refreshed from the registry.
     */
    method Sleep(waker: Waker) returns (r: bool)
      requires Valid()
      modifies this`sleeping, state`notified, state.sleepers
      ensures Valid()
      ensures sleeping != 0 && sleeping in Ids(state.sleepers.wakers)
      ensures r == (old(sleeping) == 0 || old(sleeping) !in Ids(old(state.sleepers.wakers)))
      ensures r ==> state.notified == state.sleepers.IsNotifiedNow()
      ensures !r ==> state.notified == old(state.notified)
      ensures old(sleeping) == 0 ==>
        && sleeping == NextId(old(state.sleepers.count), old(state.sleepers.freeIds))
        && sleeping !in old(state.sleepers.sleeping)
        && state.sleepers.sleeping == old(state.sleepers.sleeping) + {sleeping}
      ensures old(sleeping) != 0 ==>
        sleeping == old(sleeping) && state.sleepers.sleeping == old(state.sleepers.sleeping)
      ensures state.sleepers.count == old(state.sleepers.count) + (if old(sleeping) == 0 then 1 else 0)
      ensures r ==> state.sleepers.wakers == old(state.sleepers.wakers) + [SleeperEntry(sleeping, waker)]
      ensures !r ==> exists i :: 0 <= i < |old(state.sleepers.wakers)| && old(state.sleepers.wakers)[i].id == sleeping
                              && state.sleepers.wakers == old(state.sleepers.wakers)[i := SleeperEntry(sleeping, waker)]
    {
      if sleeping == 0 {
        // A woken ticker registers under a fresh id
        sleeping := state.sleepers.Insert(waker);
        AppendKeepsDistinct(old(state.sleepers.wakers), sleeping, waker);
      } else {
        // A sleeping ticker refreshes its entry; having none means it was notified
        var wasNotified := state.sleepers.Update(sleeping, waker);
        if !wasNotified {
          ghost var i :| 0 <= i < |old(state.sleepers.wakers)| && old(state.sleepers.wakers)[i].id == sleeping
            && state.sleepers.wakers == old(state.sleepers.wakers)[i := SleeperEntry(sleeping, waker)];
          ReplaceKeepsIds(old(state.sleepers.wakers), i, waker);
          return false;
        }
        AppendKeepsDistinct(old(state.sleepers.wakers), sleeping, waker);
      }
      state.notified := state.sleepers.IsNotifiedNow();
      return true;
    }

    /** `Ticker::wake`: a sleeping ticker leaves the registry; the ticker ends up woken. */
    method Wake()
      requires Valid()
      modifies this`sleeping, state`notified, state.sleepers
      ensures Valid() && sleeping == 0
      ensures old(sleeping) != 0 ==>
        && state.sleepers.sleeping == old(state.sleepers.sleeping) - {old(sleeping)}
        && state.sleepers.count == old(state.sleepers.count) - 1
        && state.sleepers.wakers == Without(old(state.sleepers.wakers), old(sleeping))
      ensures old(sleeping) == 0 ==>
        && state.notified == old(state.notified)
        && state.sleepers.sleeping == old(state.sleepers.sleeping)
        && state.sleepers.wakers == old(state.sleepers.wakers)
    {
      if sleeping != 0 {
        var _ := state.sleepers.Remove(sleeping);
        state.notified := state.sleepers.IsNotifiedNow();
      }
      sleeping := 0;
    }

    /**
     * `Drop for Ticker`: a sleeping ticker leaves the registry; if it had
     * been notified, the notification it owes is passed on, so the flag
     * ends up set.
     */
    method Drop()
      requires Valid()
      modifies state`notified, state`woken, state.sleepers
      ensures state.Valid()
      ensures sleeping != 0 ==> state.sleepers.sleeping == old(state.sleepers.sleeping) - {sleeping}
      ensures sleeping != 0 ==> state.sleepers.count == old(state.sleepers.count) - 1
      ensures sleeping != 0 && sleeping in Ids(old(state.sleepers.wakers)) ==>
        && state.woken == old(state.woken)
        && state.sleepers.wakers == Without(old(state.sleepers.wakers), sleeping)
        && state.notified == (old(state.notified) || state.sleepers.count == 0)
      ensures sleeping != 0 && sleeping !in Ids(old(state.sleepers.wakers)) ==>
        var ws := old(state.sleepers.wakers);
        && state.notified
        && if IsNotified(old(state.sleepers.count) - 1, ws) then state.woken == old(state.woken)
           else |ws| > 0 && state.woken == old(state.woken) + [ws[|ws| - 1].waker]
      ensures sleeping != 0 && sleeping !in Ids(old(state.sleepers.wakers)) ==>
        NotifyEffect(IsNotified(old(state.sleepers.count) - 1, old(state.sleepers.wakers)),
                     old(state.woken), old(state.sleepers.wakers), state.woken, state.sleepers.wakers)
      ensures sleeping == 0 ==>
        && state.notified == old(state.notified) && state.woken == old(state.woken)
        && state.sleepers.wakers == old(state.sleepers.wakers)
      ensures old(state.WorkAnnounced()) ==> state.WorkAnnounced()
    {
      if sleeping != 0 {
        ghost var ws0, c0, w0 := state.sleepers.wakers, state.sleepers.count, state.woken;
        var wasNotified := state.sleepers.Remove(sleeping);
        state.notified := state.sleepers.IsNotifiedNow();
        // A notification this ticker received but did not use goes to the next sleeper
        if wasNotified {
          assert state.sleepers.wakers == ws0 && state.notified == IsNotified(c0 - 1, ws0);
          state.Notify();
        } else {
          assert state.woken == w0 && state.sleepers.wakers == Without(ws0, sleeping);
        }
      }
    }

    /**
     * One pass of `runnable_with`'s loop with the run queue as the search: a
     * task of greatest priority is taken, the ticker woken and another
     * notified; with nothing queued the ticker goes to sleep, and the poll
     * is pending if it slept before and still had its entry, else it retries.
     */
    method SearchStep(waker: Waker) returns (step: Step)
      requires Valid()
      modifies this`sleeping, state`notified, state`woken, state.sleepers, state.queue
      ensures Valid()
      ensures step.Ready? <==> old(state.queue.items) != multiset{}
      ensures step.Ready? ==> sleeping == 0 && state.notified && exists item ::
        && IsMax(item, old(state.queue.items)) && item.runnable == step.runnable
        && state.queue.items == old(state.queue.items) - multiset{item}
      ensures step.Ready? ==> WakeToRunEffect(old(sleeping), old(state.sleepers.count), old(state.sleepers.wakers),
                                              old(state.woken), state.woken, state.sleepers.wakers)
      ensures !step.Ready? ==>
        && state.queue.items == old(state.queue.items)
        && sleeping != 0 && sleeping in Ids(state.sleepers.wakers)
      ensures step.Pending? <==> !step.Ready? && SleepBudget(old(sleeping), old(state.sleepers.wakers)) == 0
      ensures forall id :: id in old(state.sleepers.sleeping) && id != old(sleeping) ==> id in state.sleepers.sleeping
      ensures sleeping == 0 || sleeping == old(sleeping) || sleeping !in old(state.sleepers.sleeping)
      ensures !step.Ready? ==>
        && state.woken == old(state.woken)
        && state.sleepers.count == old(state.sleepers.count) + (if old(sleeping) == 0 then 1 else 0)
        && (old(sleeping) != 0 ==> sleeping == old(sleeping))
      ensures step.Retry? ==> state.sleepers.wakers == old(state.sleepers.wakers) + [SleeperEntry(sleeping, waker)]
      ensures step.Pending? ==> exists i ::
        && 0 <= i < |old(state.sleepers.wakers)| && old(state.sleepers.wakers)[i].id == sleeping
        && state.sleepers.wakers == old(state.sleepers.wakers)[i := SleeperEntry(sleeping, waker)]
    {
      var found := state.queue.Pop();
      match found {
        case None =>
          step := SleepStep(waker);
        case Some(item) =>
          WakeToRun();
          return Ready(item.runnable);
      }
    }

    /**
     * The found-a-task branch of `runnable_with`'s loop: the ticker wakes,
     * and another ticker is notified, so that a long task does not hold up the queue.
     */
    method WakeToRun()
      requires Valid()
      modifies this`sleeping, state`notified, state`woken, state.sleepers
      ensures Valid() && sleeping == 0 && state.notified
      ensures forall id :: id in old(state.sleepers.sleeping) && id != old(sleeping) ==> id in state.sleepers.sleeping
      ensures WakeToRunEffect(old(sleeping), old(state.sleepers.count), old(state.sleepers.wakers),
                              old(state.woken), state.woken, state.sleepers.wakers)
    {
      Wake();
      state.Notify();
    }

    /**
     * The empty-queue branch of `runnable_with`'s loop: the ticker sleeps;
     * the poll is pending if it slept before and still had its entry.
     */
    method SleepStep(waker: Waker) returns (step: Step)
      requires Valid()
      modifies this`sleeping, state`notified, state.sleepers
      ensures Valid() && !step.Ready?
      ensures sleeping != 0 && sleeping in Ids(state.sleepers.wakers)
      ensures step.Pending? <==> SleepBudget(old(sleeping), old(state.sleepers.wakers)) == 0
      ensures old(sleeping) == 0 ==> state.sleepers.sleeping == old(state.sleepers.sleeping) + {sleeping}
      ensures old(sleeping) == 0 ==> sleeping !in old(state.sleepers.sleeping)
      ensures old(sleeping) != 0 ==> sleeping == old(sleeping) && state.sleepers.sleeping == old(state.sleepers.sleeping)
      ensures state.sleepers.count == old(state.sleepers.count) + (if old(sleeping) == 0 then 1 else 0)
      ensures step.Retry? ==> state.sleepers.wakers == old(state.sleepers.wakers) + [SleeperEntry(sleeping, waker)]
      ensures step.Pending? ==> exists i ::
        && 0 <= i < |old(state.sleepers.wakers)| && old(state.sleepers.wakers)[i].id == sleeping
        && state.sleepers.wakers == old(state.sleepers.wakers)[i := SleeperEntry(sleeping, waker)]
    {
      // Sleep answers false only for a ticker that already slept with an entry
      var slept := Sleep(waker);
      if !slept {
        return Pending;
      }
      return Retry;
    }

    /**
     * One poll of `runnable_with`: the first runnable the search finds, or
     * `None` (pending) once the ticker is registered as sleeping and
     * unnotified.  The loop retries at most twice.
     */
    method PollRunnable(waker: Waker) returns (r: Option<Runnable>)
      requires Valid()
      modifies this`sleeping, state`notified, state`woken, state.sleepers, state.queue
      ensures Valid()
      ensures r.Some? <==> old(state.queue.items) != multiset{}
      ensures r.Some? ==> sleeping == 0 && state.notified && exists item ::
        && IsMax(item, old(state.queue.items)) && item.runnable == r.value
        && state.queue.items == old(state.queue.items) - multiset{item}
      ensures r.None? ==>
        && state.queue.items == old(state.queue.items)
        && sleeping != 0 && sleeping in Ids(state.sleepers.wakers)
      ensures forall id :: id in old(state.sleepers.sleeping) && id != old(sleeping) ==> id in state.sleepers.sleeping
      ensures r.None? ==> state.woken == old(state.woken)
      ensures r.None? ==> state.sleepers.count == old(state.sleepers.count) + (if old(sleeping) == 0 then 1 else 0)
      ensures r.None? && old(sleeping) == 0 ==>
        state.sleepers.wakers == old(state.sleepers.wakers) + [SleeperEntry(sleeping, waker)]
      ensures r.None? && old(sleeping) != 0 ==>
        Reregistered(old(state.sleepers.wakers), sleeping, waker, state.sleepers.wakers)
      ensures r.Some? ==> WakeToRunEffect(old(sleeping), old(state.sleepers.count), old(state.sleepers.wakers),
                                          old(state.woken), state.woken, state.sleepers.wakers)
      ensures state.WorkAnnounced()
    {
      ghost var s0, ws0 := sleeping, state.sleepers.wakers;
      while true
        invariant Valid()
        invariant state.queue.items == old(state.queue.items) && state.woken == old(state.woken)
        invariant forall id :: id in old(state.sleepers.sleeping) && id != old(sleeping) ==> id in state.sleepers.sleeping
        invariant sleeping == 0 || sleeping == old(sleeping) || sleeping !in old(state.sleepers.sleeping)
        invariant old(sleeping) != 0 ==> sleeping == old(sleeping)
        invariant state.sleepers.count == old(state.sleepers.count) + (if old(sleeping) == 0 && sleeping != 0 then 1 else 0)
        invariant old(sleeping) == 0 && sleeping != 0 ==>
          && state.sleepers.wakers == old(state.sleepers.wakers) + [SleeperEntry(sleeping, waker)]
          && sleeping in Ids(state.sleepers.wakers)
        invariant sleeping == 0 ==> state.sleepers.wakers == old(state.sleepers.wakers)
        invariant s0 != 0 ==>
          || state.sleepers.wakers == ws0
          || (s0 !in Ids(ws0) && state.sleepers.wakers == ws0 + [SleeperEntry(s0, waker)])
        invariant old(state.queue.items) != multiset{} ==>
          && sleeping == old(sleeping) && state.sleepers.count == old(state.sleepers.count)
          && state.sleepers.wakers == old(state.sleepers.wakers)
        decreases SleepBudget(sleeping, state.sleepers.wakers)
      {
        ghost var before := state.sleepers.wakers;
        assert s0 != 0 && before != ws0 ==> before[|before| - 1].id == s0 && s0 in Ids(before);
        var step := SearchStep(waker);
        match step {
          case Pending =>
            if old(sleeping) == 0 || before != ws0 {
              RegisteredLastStays(before, sleeping, waker, state.sleepers.wakers);
            }
            return None;
          case Ready(runnable) =>
            return Some(runnable);
          case Retry =>
        }
      }
    }
  }

  /**
   * Re-registering the waker that is already the last entry leaves the
   * registry as it was.
   */
  lemma RegisteredLastStays(ws: seq<SleeperEntry>, id: nat, waker: Waker, ws': seq<SleeperEntry>)
    requires |ws| > 0 && ws[|ws| - 1] == SleeperEntry(id, waker) && DistinctIds(ws)
    requires exists i :: 0 <= i < |ws| && ws[i].id == id && ws' == ws[i := SleeperEntry(id, waker)]
    ensures ws' == ws
  {
    var i :| 0 <= i < |ws| && ws[i].id == id && ws' == ws[i := SleeperEntry(id, waker)];
    assert i == |ws| - 1;
  }

  /** The outcome of one pass of `runnable_with`'s loop. */
  datatype Step = Pending | Retry | Ready(runnable: Runnable)

  /** `Executor`: the state pointer is null until the state is first needed. */
  class Executor {
    var state: State?

    ghost function Repr(): set<object>
      reads this
    {
      {this} + if state == null then {} else {state, state.queue, state.sleepers, state.active}
    }

    /** Between operations the state keeps its invariant and no queued work is left unannounced. */
    ghost predicate Valid()
      reads Repr()
    {
      state != null ==> state.Valid() && state.WorkAnnounced()
    }

    /** The `notified` flag; a state not yet allocated starts with it set. */
    ghost function Notified(): bool
      reads Repr()
    {
      state == null || state.notified
    }

    /** The wakers of the sleeping, unnotified tickers. */
    ghost function Wakers(): seq<SleeperEntry>
      reads Repr()
    {
      if state == null then [] else state.sleepers.wakers
    }

    /** The active tasks' wakers by key; none before the state exists. */
    ghost function ActiveTasks(): map<nat, Waker>
      reads Repr()
    {
      if state == null then map[] else state.active.entries
    }

    /** The queued runnables; none before the state exists. */
    ghost function Queued(): multiset<PriorityRunnable>
      reads Repr()
    {
      if state == null then multiset{} else state.queue.items
    }

    /** The wakers woken so far. */
    ghost function Woken(): seq<Waker>
      reads Repr()
    {
      if state == null then [] else state.woken
    }

    /** The runnables run so far. */
    ghost function Ran(): seq<Runnable>
      reads Repr()
    {
      if state == null then [] else state.ran
    }

    /** The order in which draining the active tasks yields their wakers. */
    ghost function DrainOrder(): seq<Waker>
      reads Repr()
    {
      if state == null then [] else ValuesInOrder(state.active.entries, state.active.slots)
    }

    /** `Executor::new`. */
    constructor ()
      ensures Valid() && state == null
    {
      state := null;
    }

    /** `state_ptr`: the state, allocated (and published) on first use. */
    method StatePtr() returns (s: State)
      requires Valid()
      modifies this
      ensures Valid() && state == s && fresh(Repr() - old(Repr()))
      ensures old(state) != null ==> s == old(state)
      ensures old(state) == null ==>
        && fresh(s) && fresh(s.queue) && fresh(s.sleepers) && fresh(s.active)
        && s.queue.items == multiset{} && s.active.entries == map[] && s.active.slots == 0
        && s.woken == [] && s.ran == [] && s.notified && s.sleepers.wakers == []
      ensures ActiveTasks() == old(ActiveTasks()) && Queued() == old(Queued())
      ensures Woken() == old(Woken()) && Ran() == old(Ran())
      ensures Wakers() == old(Wakers()) && Notified() == old(Notified())
    {
      if state == null {
        state := new State();
      }
      s := state;
    }

    /** `Executor::is_empty`: no unfinished task. */
    method IsEmpty() returns (r: bool)
      requires Valid()
      modifies this
      ensures Valid() && state != null && fresh(Repr() - old(Repr()))
      ensures r <==> old(ActiveTasks()) == map[]
      ensures ActiveTasks() == old(ActiveTasks()) && Queued() == old(Queued())
      ensures Woken() == old(Woken()) && Ran() == old(Ran())
      ensures Wakers() == old(Wakers()) && Notified() == old(Notified())
    {
      var s := StatePtr();
      r := s.active.IsEmpty();
    }

    /** `Executor::spawn`: one more active task and one more queued runnable. */
    method Spawn(priority: int, runnable: Runnable, waker: Waker) returns (key: nat)
      requires Valid()
      modifies Repr()
      ensures Valid() && state != null && (old(state) != null ==> state == old(state))
      ensures fresh(Repr() - old(Repr()))
      ensures key !in old(ActiveTasks())
      ensures ActiveTasks() == old(ActiveTasks())[key := waker]
      ensures Queued() == old(Queued()) + multiset{PriorityRunnable(priority, runnable)}
      ensures Ran() == old(Ran()) && Notified()
      ensures NotifyEffect(old(Notified()), old(Woken()), old(Wakers()), Woken(), Wakers())
    {
      var s := StatePtr();
      key := s.SpawnInner(priority, runnable, waker);
    }

    /** `Executor::try_tick`. */
    method TryTick() returns (r: bool)
      requires Valid()
      modifies Repr()
      ensures Valid() && state != null && (old(state) != null ==> state == old(state))
      ensures fresh(Repr() - old(Repr()))
      ensures r <==> old(Queued()) != multiset{}
      ensures !r ==> Queued() == old(Queued()) && Ran() == old(Ran())
      ensures r ==> exists item ::
        && IsMax(item, old(Queued()))
        && Queued() == old(Queued()) - multiset{item}
        && Ran() == old(Ran()) + [item.runnable]
      ensures ActiveTasks() == old(ActiveTasks())
      ensures !r ==> Woken() == old(Woken()) && Wakers() == old(Wakers()) && Notified() == old(Notified())
      ensures r ==> Notified() && NotifyEffect(old(Notified()), old(Woken()), old(Wakers()), Woken(), Wakers())
    {
      var s := StatePtr();
      r := s.TryTick();
    }

    /**
     * `Drop for Executor`: without a state nothing happens; otherwise every
     * active task's waker is woken once, in key order, and both the active
     * set and the run queue end up empty.
     *
     * Dropping takes the executor by unique borrow, and every `Ticker`
     * borrows it, so no ticker is left to sleep: the registry is empty and
     * the flag is set.  A drained waker's schedule closure then only queues
     * a runnable, which the final `clear` removes, and notifies nobody.
     */
    method Drop()
      requires Valid()
      requires state != null ==> state.sleepers.count == 0
      modifies Repr()
      ensures Valid() && state == old(state) && Notified()
      ensures ActiveTasks() == map[] && Queued() == multiset{}
      ensures Woken() == old(Woken()) + old(DrainOrder())
      ensures Ran() == old(Ran())
      ensures Wakers() == old(Wakers()) && Notified() == old(Notified())
    {
      if state == null {
        return;
      }
      var s := state;
      var drained := s.active.Drain();
      var i := 0;
      while i < |drained|
        invariant 0 <= i <= |drained|
        invariant state == s && s.Valid() && s.active.entries == map[]
        invariant s.woken == old(s.woken) + drained[..i]
        invariant s.queue.items == old(s.queue.items) && s.ran == old(s.ran)
        invariant s.sleepers.wakers == old(s.sleepers.wakers) && s.notified == old(s.notified)
      {
        s.woken := s.woken + [drained[i]];
        i := i + 1;
      }
      s.queue.Clear();
    }
  }

  /** The wakers registered by spawning `tasks` under `keys`, key by key. */
  function Registered(m: map<nat, Waker>, keys: seq<nat>, tasks: seq<TaskSpec>): map<nat, Waker>
    requires |keys| == |tasks|
  {
    if |keys| == 0 then m
    else Registered(m, keys[..|keys| - 1], tasks[..|tasks| - 1])[keys[|keys| - 1] := tasks[|tasks| - 1].waker]
  }

  /**
   * Spawning `tasks` one by one from active set `m0` and queue `q0` gave
   * distinct new `keys`, the active set `m` and the queue `q`.
   */
  ghost predicate BatchSpawned(m0: map<nat, Waker>, q0: multiset<PriorityRunnable>, tasks: seq<TaskSpec>,
                               keys: seq<nat>, m: map<nat, Waker>, q: multiset<PriorityRunnable>)
  {
    && |keys| == |tasks|
    && (forall i, j :: 0 <= i < j < |keys| ==> keys[i] != keys[j])
    && (forall i :: 0 <= i < |keys| ==> keys[i] !in m0 && keys[i] in m)
    && m0.Keys <= m.Keys
    && m == Registered(m0, keys, tasks)
    && q == q0 + QueuedOf(tasks)
  }

  /** One more spawn, under a key vacant before it, extends the batch. */
  lemma BatchSpawnedStep(m0: map<nat, Waker>, q0: multiset<PriorityRunnable>, tasks: seq<TaskSpec>, keys: seq<nat>, key: nat,
                         m: map<nat, Waker>, m': map<nat, Waker>, q: multiset<PriorityRunnable>, q': multiset<PriorityRunnable>)
    requires |tasks| > 0
    requires BatchSpawned(m0, q0, tasks[..|tasks| - 1], keys, m, q)
    requires key !in m && m' == m[key := tasks[|tasks| - 1].waker]
    requires q' == q + multiset{PriorityRunnable(tasks[|tasks| - 1].priority, tasks[|tasks| - 1].runnable)}
    ensures BatchSpawned(m0, q0, tasks, keys + [key], m', q')
  {
    assert (keys + [key])[..|keys|] == keys;
  }

  /** The runnables queued by spawning `tasks`. */
  function QueuedOf(tasks: seq<TaskSpec>): multiset<PriorityRunnable> {
    if |tasks| == 0 then multiset{}
    else QueuedOf(tasks[..|tasks| - 1]) + multiset{PriorityRunnable(tasks[|tasks| - 1].priority, tasks[|tasks| - 1].runnable)}
  }

  /** One future handed to `spawn_many`: its priority, and the runnable and waker of its task. */
  datatype TaskSpec = TaskSpec(priority: int, runnable: Runnable, waker: Waker)

  /** `LocalExecutor`: an `Executor` used from one thread. */
  class LocalExecutor {
    const inner: Executor

    ghost function Repr(): set<object>
      reads this, inner
    {
      {this} + inner.Repr()
    }

    ghost predicate Valid()
      reads this, inner, inner.Repr()
    {
      inner.Valid()
    }

    /** `LocalExecutor::new`. */
    constructor ()
      ensures Valid() && fresh(inner) && inner.state == null
    {
      inner := new Executor();
    }

    /** `LocalExecutor::is_empty`: no unfinished task. */
    method IsEmpty() returns (r: bool)
      requires Valid()
      modifies inner
      ensures Valid() && inner.state != null && fresh(inner.Repr() - old(inner.Repr()))
      ensures r <==> old(inner.ActiveTasks()) == map[]
      ensures inner.ActiveTasks() == old(inner.ActiveTasks()) && inner.Queued() == old(inner.Queued())
      ensures inner.Woken() == old(inner.Woken()) && inner.Ran() == old(inner.Ran())
      ensures inner.Wakers() == old(inner.Wakers()) && inner.Notified() == old(inner.Notified())
    {
      r := inner.IsEmpty();
    }

    /** `LocalExecutor::spawn`: one more active task and one more queued runnable. */
    method Spawn(priority: int, runnable: Runnable, waker: Waker) returns (key: nat)
      requires Valid()
      modifies inner.Repr()
      ensures Valid() && inner.state != null && fresh(inner.Repr() - old(inner.Repr()))
      ensures key !in old(inner.ActiveTasks())
      ensures inner.ActiveTasks() == old(inner.ActiveTasks())[key := waker]
      ensures inner.Queued() == old(inner.Queued()) + multiset{PriorityRunnable(priority, runnable)}
      ensures inner.Ran() == old(inner.Ran()) && inner.Notified()
      ensures NotifyEffect(old(inner.Notified()), old(inner.Woken()), old(inner.Wakers()), inner.Woken(), inner.Wakers())
    {
      key := inner.Spawn(priority, runnable, waker);
    }

    /** `LocalExecutor::try_tick`. */
    method TryTick() returns (r: bool)
      requires Valid()
      modifies inner.Repr()
      ensures Valid() && inner.state != null && fresh(inner.Repr() - old(inner.Repr()))
      ensures r <==> old(inner.Queued()) != multiset{}
      ensures !r ==> inner.Queued() == old(inner.Queued()) && inner.Ran() == old(inner.Ran())
      ensures r ==> exists item ::
        && IsMax(item, old(inner.Queued()))
        && inner.Queued() == old(inner.Queued()) - multiset{item}
        && inner.Ran() == old(inner.Ran()) + [item.runnable]
      ensures inner.ActiveTasks() == old(inner.ActiveTasks())
      ensures !r ==> (inner.Woken() == old(inner.Woken()) && inner.Wakers() == old(inner.Wakers())
                   && inner.Notified() == old(inner.Notified()))
      ensures r ==> inner.Notified()
                    && NotifyEffect(old(inner.Notified()), old(inner.Woken()), old(inner.Wakers()), inner.Woken(), inner.Wakers())
    {
      r := inner.TryTick();
    }

    /**
     * `LocalExecutor::spawn_many`: each task in turn takes a vacant key and
     * is queued, all under one lock; the keys are distinct and new.
     */
    method SpawnMany(tasks: seq<TaskSpec>) returns (keys: seq<nat>)
      requires Valid()
      modifies inner.Repr()
      ensures Valid() && inner.state != null
      ensures |keys| == |tasks|
      ensures forall i, j :: 0 <= i < j < |keys| ==> keys[i] != keys[j]
      ensures forall i :: 0 <= i < |keys| ==> keys[i] !in old(inner.ActiveTasks())
      ensures inner.ActiveTasks() == Registered(old(inner.ActiveTasks()), keys, tasks)
      ensures inner.Queued() == old(inner.Queued()) + QueuedOf(tasks)
      ensures inner.Ran() == old(inner.Ran())
      ensures inner.Notified() == (old(inner.Notified()) || |tasks| > 0)
      ensures NotifyEffect(old(inner.Notified()) || |tasks| == 0, old(inner.Woken()), old(inner.Wakers()),
                           inner.Woken(), inner.Wakers())
    {
      var s := inner.StatePtr();
      keys := s.SpawnBatch(tasks);
    }
  }
}
