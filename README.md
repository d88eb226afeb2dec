# Bevy task executor, GPU driver strings and winit update loop

A Dafny model of three pieces of the Bevy engine.

1. **The priority executor of `bevy_tasks`.**
   - A shared `State` holds four things:
     - a run queue of runnables tagged with an `isize` priority, kept in a max-heap that compares priorities only;
     - a `notified` flag;
     - a registry of sleeping tickers (`Sleepers`);
     - a slab of the active tasks' wakers.
   - `Executor` allocates the state on first use. `LocalExecutor` wraps an `Executor` and can spawn a batch of tasks under one lock.
   - A `Ticker` asks for the next runnable. It goes to sleep when the queue is empty and is woken by whoever schedules a task.
   - The model proves the following:
     - the registry's bookkeeping invariant, including that no id is ever lost or duplicated;
     - that the `is_notified` fast path means what its documentation says;
     - that a tick always takes an item of greatest priority;
     - that a spawn wakes exactly the most recently registered unnotified sleeper;
     - that a dropped, notified ticker passes its notification on;
     - that dropping the executor wakes every active task once, in key order.
   - Three runs from a fresh state are proved outright: priority order, no lost wakeup, and hand-over on drop.
2. **The renderer's GPU driver strings (`bevy_render`).**
   - The Adreno model number is the wrapping `u32` fold over the digits after `"Adreno (TM) "`. It is proved equal to the decimal value modulo 2^32, and exact when the value fits.
   - The Mali driver version is the `u32` parse of the text between the first `"v1.r"` and the next `'p'`.
   - `str::parse::<u32>` is modelled with its optional `+` and its overflow check, and proved equal to the decimal reading.
3. **The update decision of the winit runner (`bevy_winit`).**
   - Covers `should_update` and `reset_on_update`.
   - Covers one pass of `redraw_requested`:
     - the five forced start-up updates;
     - the `WillSuspend`/`WillResume` lifecycle steps and the lifecycle events they report;
     - the "one update per redraw" rule with its all-invisible exception;
     - mode changes;
     - redraws held back while suspended;
     - the exit request.
   - Covers the flags set by the event handlers.
   - Covers the IME preedit flag, which gates keyboard input and releases every pressed key when a preedit begins.

The files:

| File | Module | Contents |
|---|---|---|
| `wrappers.dfy` | `Wrappers` | `Option` |
| `sleepers.dfy` | `ExecutorSleepers` | the sleeper registry and its invariant |
| `run_queue.dfy` | `ExecutorQueue` | `PriorityRunnable`, its ordering and the heap |
| `slab.dfy` | `ExecutorSlab` | the slab of active tasks |
| `executor.dfy` | `TaskExecutor` | `State`, `Ticker`, `Executor` and `LocalExecutor` |
| `executor_scenarios.dfy` | `ExecutorScenarios` | runs of the executor from a fresh state |
| `gpu_driver.dfy` | `GpuDriver` | `get_adreno_model`, `get_mali_driver_version` and `parse::<u32>` |
| `winit_runner.dfy` | `WinitRunner` | `WinitAppRunnerState` and its update decision |

How the model treats the outside world:

- The model is sequential. Each step the source takes under one of its mutexes, or by one atomic operation, is one method.
- Calls that other code would react to are recorded in logs:
  - `Waker::wake` calls in `State.woken`;
  - `Runnable::run` calls in `State.ran`;
  - runner events in `lifecycleEvents`, `inputEvents`, `updates` and `redraws`.
- Inputs the source reads from outside become parameters:
  - the runnable and waker `async_task` creates;
  - the `cfg!(target_os = "android")` flag;
  - the adapter strings;
  - whatever the ECS world, the app, winit or the clock reports during a pass (`FrameInputs`, the `elapsed` flag of `NewEvents`).
- `AppLifecycle::is_active` is a function given to the runner; it is defined in bevy_window and is not part of this model.

## Model

| member | source | states |
|---|---|---|
| `ExecutorSleepers.DistinctIdsCount` | crates/bevy_tasks/src/executor.rs:527-530 | wakers with distinct ids are exactly as many as their ids |
| `ExecutorSleepers.WakersBounded` | crates/bevy_tasks/src/executor.rs:523-533 | under the registry invariant there are never more unnotified wakers than sleeping tickers |
| `ExecutorSleepers.IsNotifiedMeaning` | crates/bevy_tasks/src/executor.rs:579-582 | `count == 0` or `count > wakers.len()` holds exactly when no ticker sleeps or some sleeping ticker has no waker entry, i.e. is notified |
| `ExecutorSleepers.IdsCoverRange` | crates/bevy_tasks/src/executor.rs:523-546 | the sleeping ids and the reclaimed ids together are exactly 1..count+free_ids.len(), so no id is lost |
| `ExecutorSleepers.NextIdIsFresh` | crates/bevy_tasks/src/executor.rs:538-542 | the id `insert` hands out is non-zero and held by no sleeping ticker |
| `ExecutorSleepers.InsertKeepsInv` | crates/bevy_tasks/src/executor.rs:538-546 | inserting under the next id keeps the registry invariant |
| `ExecutorSleepers.RemoveKeepsInv` | crates/bevy_tasks/src/executor.rs:566-577 | reclaiming a sleeping id, once its entry is gone, keeps the invariant |
| `ExecutorSleepers.WithoutKeepsOthers` | crates/bevy_tasks/src/executor.rs:570-576 | taking an id out of the wakers list keeps exactly the entries of the other ids |
| `ExecutorSleepers.WithoutAbsent` | crates/bevy_tasks/src/executor.rs:570-576 | taking out an id that has no entry leaves the wakers list unchanged |
| `ExecutorSleepers.WithoutDeletes` | crates/bevy_tasks/src/executor.rs:570-574 | with distinct ids, taking out the id of entry i deletes exactly entry i |
| `ExecutorSleepers.Sleepers.constructor` | crates/bevy_tasks/src/executor.rs:454-458 | an empty registry satisfies the invariant |
| `ExecutorSleepers.Sleepers.Insert` | crates/bevy_tasks/src/executor.rs:538-546 | the last reclaimed id, else count+1, is registered with its waker; count grows by one; the invariant holds |
| `ExecutorSleepers.Sleepers.Update` | crates/bevy_tasks/src/executor.rs:551-561 | a ticker with an entry has its waker replaced in place and gets false; one without (notified) is appended and gets true |
| `ExecutorSleepers.Sleepers.Remove` | crates/bevy_tasks/src/executor.rs:566-577 | count drops by one, the id is reclaimed, its entry (if any) is deleted in place, and the result is true exactly when it had none; the new wakers list is the old one with that id's entries taken out |
| `ExecutorSleepers.Sleepers.Notify` | crates/bevy_tasks/src/executor.rs:587-593 | when wakers.len() equals a non-zero count the last waker is popped and returned, else nothing changes; afterwards the registry is notified |
| `ExecutorQueue.Compare` | crates/bevy_tasks/src/executor.rs:409-413 | the ordering of two runnables is the ordering of their priorities |
| `ExecutorQueue.CompareIsTotalPreorder` | crates/bevy_tasks/src/executor.rs:395-413 | the ordering is antisymmetric and transitive and agrees with `eq`, which compares priorities only |
| `ExecutorQueue.MaxExists` | crates/bevy_tasks/src/executor.rs:415-418 | a non-empty queue has an item of greatest priority |
| `ExecutorQueue.PriorityQueue.constructor` | crates/bevy_tasks/src/executor.rs:421-426 | the queue starts empty |
| `ExecutorQueue.PriorityQueue.Push` | crates/bevy_tasks/src/executor.rs:187 | the item joins the queue |
| `ExecutorQueue.PriorityQueue.Pop` | crates/bevy_tasks/src/executor.rs:484 | nothing from an empty queue; otherwise an item of greatest priority, which leaves the queue |
| `ExecutorQueue.PriorityQueue.Clear` | crates/bevy_tasks/src/executor.rs:258 | the queue ends up empty |
| `ExecutorSlab.InOrderFacts` | crates/bevy_tasks/src/executor.rs:253 | draining yields each occupied key once, in increasing order, with its value |
| `ExecutorSlab.InOrderCount` | crates/bevy_tasks/src/executor.rs:253-255 | draining yields as many wakers as there are active tasks |
| `ExecutorSlab.NextKeyIsVacant` | crates/bevy_tasks/src/executor.rs:120-121 | the key `vacant_entry` reports is not in use |
| `ExecutorSlab.Slab.constructor` | crates/bevy_tasks/src/executor.rs:459 | a new slab is empty and valid |
| `ExecutorSlab.Slab.IsEmpty` | crates/bevy_tasks/src/executor.rs:53 | true exactly when no task is active |
| `ExecutorSlab.Slab.Insert` | crates/bevy_tasks/src/executor.rs:152 | the value is stored under the previously vacant key and nothing else changes |
| `ExecutorSlab.Slab.TryRemove` | crates/bevy_tasks/src/executor.rs:123 | the value under the key, if any, is returned and the key vacated |
| `ExecutorSlab.Slab.Drain` | crates/bevy_tasks/src/executor.rs:253 | every value comes out in key order and the slab is left empty |
| `TaskExecutor.State.constructor` | crates/bevy_tasks/src/executor.rs:450-461 | empty queue, registry and slab, with `notified` set |
| `TaskExecutor.State.Notify` | crates/bevy_tasks/src/executor.rs:470-481 | only a false-to-true change of the flag reaches the registry, and it then wakes exactly the most recently registered unnotified ticker; the flag ends up set |
| `TaskExecutor.State.Schedule` | crates/bevy_tasks/src/executor.rs:180-190 | the runnable is queued with its priority, then a sleeper is notified as in `State.Notify`; afterwards the queued work is announced by the flag |
| `TaskExecutor.State.TryTick` | crates/bevy_tasks/src/executor.rs:483-496 | false exactly on an empty queue, and then nothing changes; otherwise an item of greatest priority leaves the queue and is run, after another ticker is notified with exactly `State.Notify`'s effect on the wake log and wakers; either way a non-empty queue leaves the flag set |
| `TaskExecutor.State.SpawnInner` | crates/bevy_tasks/src/executor.rs:113-156 | the waker takes the slab's vacant key and the runnable is scheduled once with the task's priority, with `State.Notify`'s effect on the wake log and wakers; afterwards the queued work is announced |
| `TaskExecutor.State.SpawnBatch` | crates/bevy_tasks/src/executor.rs:327-337 | every task in turn takes a distinct new key and is queued; the active set and the queue grow by exactly those tasks; the flag ends set exactly when it was set or the batch is non-empty; at most one waker is woken, by the first spawn and only when the flag was clear; announced work stays announced |
| `TaskExecutor.State.FinishTask` | crates/bevy_tasks/src/executor.rs:123 | the finished task's key leaves the active set, and whether queued work is announced does not change |
| `TaskExecutor.WorkAnnouncedMeaning` | crates/bevy_tasks/src/executor.rs:579-582 | while a runnable is queued and the flag is set, no ticker sleeps or some sleeping ticker has already been notified, so no wakeup is lost |
| `TaskExecutor.Ticker.constructor` | crates/bevy_tasks/src/executor.rs:612-614 | a new ticker is woken |
| `TaskExecutor.Ticker.Sleep` | crates/bevy_tasks/src/executor.rs:619-641 | a woken ticker registers under a fresh id; a sleeping one re-registers only if notified; false exactly when it slept before and still had its entry, the flag then untouched, else refreshed from the registry |
| `TaskExecutor.Ticker.Wake` | crates/bevy_tasks/src/executor.rs:644-654 | a sleeping ticker leaves the registry, its entry leaves the wakers list and the flag is refreshed; the ticker ends up woken |
| `TaskExecutor.Ticker.Drop` | crates/bevy_tasks/src/executor.rs:691-708 | a sleeping ticker leaves the registry; if it had an entry, that entry is deleted, nothing is woken and the flag becomes set when it was set or no ticker sleeps any more; if it was notified it notifies another with `State.Notify`'s effect, waking the last unnotified sleeper when none is notified; a woken ticker changes nothing; announced work stays announced |
| `TaskExecutor.Ticker.SearchStep` | crates/bevy_tasks/src/executor.rs:665-684 | with a queued task, one of greatest priority is taken, the ticker woken and another notified, the wake log and wakers changing exactly as removing the ticker and then `State.Notify` would; otherwise the ticker sleeps and the step is pending exactly when it already slept unnotified |
| `TaskExecutor.Ticker.WakeToRun` | crates/bevy_tasks/src/executor.rs:674-682 | the ticker ends up woken and the flag set, other sleepers stay asleep, and the wake log and wakers change exactly as removing the ticker and then `State.Notify` would |
| `TaskExecutor.Ticker.SleepStep` | crates/bevy_tasks/src/executor.rs:667-673 | the ticker is registered as sleeping; pending exactly when it already was and was unnotified |
| `TaskExecutor.Ticker.PollRunnable` | crates/bevy_tasks/src/executor.rs:663-688 | a poll returns a runnable of greatest priority exactly when one is queued, with `WakeToRun`'s effect on the wake log and wakers; otherwise it returns pending with the ticker's waker registered: a newly sleeping ticker's entry is appended, and an already sleeping one's entry is overwritten in place, or appended when it had been notified; afterwards the queued work is announced |
| `TaskExecutor.ReregisteredKeepsOthers` | crates/bevy_tasks/src/executor.rs:551-561 | re-registering a sleeper leaves its entry holding the new waker and keeps every other sleeper's entry |
| `TaskExecutor.RegisteredLastStays` | crates/bevy_tasks/src/executor.rs:551-556 | re-registering the waker already in the last entry leaves the registry unchanged |
| `TaskExecutor.Executor.constructor` | crates/bevy_tasks/src/executor.rs:44-49 | a new executor has no state yet |
| `TaskExecutor.Executor.StatePtr` | crates/bevy_tasks/src/executor.rs:194-219 | the state is created fresh and empty on first use; afterwards the same state is returned; the active tasks, queue, logs, flag and wakers are unchanged |
| `TaskExecutor.Executor.IsEmpty` | crates/bevy_tasks/src/executor.rs:52-54 | true exactly when no task is active; the active tasks, queue, logs, flag and wakers are unchanged |
| `TaskExecutor.Executor.Spawn` | crates/bevy_tasks/src/executor.rs:57-66 | one more active task under a new key and one more queued runnable with the given priority; the flag ends set, with `State.Notify`'s effect on the wake log and wakers; the executor's invariant, which includes announced work, is kept |
| `TaskExecutor.Executor.TryTick` | crates/bevy_tasks/src/executor.rs:161-163 | as `State.TryTick`, on the lazily created state: the greatest-priority item, the notify effect, and nothing changed on an empty queue |
| `TaskExecutor.Executor.Drop` | crates/bevy_tasks/src/executor.rs:241-259 | with no ticker alive, as the unique borrow of the executor guarantees: without a state nothing happens; otherwise every active waker is woken once in key order, the slab and queue end up empty, and the flag stays set; the wakers and the run log are unchanged |
| `TaskExecutor.BatchSpawnedStep` | crates/bevy_tasks/src/executor.rs:330-337 | spawning one more task under a key vacant before it extends the batch |
| `TaskExecutor.LocalExecutor.constructor` | crates/bevy_tasks/src/executor.rs:290-295 | a new local executor wraps an executor without state |
| `TaskExecutor.LocalExecutor.IsEmpty` | crates/bevy_tasks/src/executor.rs:298-300 | as `Executor.IsEmpty`, on the inner executor |
| `TaskExecutor.LocalExecutor.Spawn` | crates/bevy_tasks/src/executor.rs:303-309 | as `Executor.Spawn`, on the inner executor |
| `TaskExecutor.LocalExecutor.TryTick` | crates/bevy_tasks/src/executor.rs:346-348 | as `Executor.TryTick`, on the inner executor |
| `TaskExecutor.LocalExecutor.SpawnMany` | crates/bevy_tasks/src/executor.rs:322-341 | the tasks get distinct keys that were vacant before; the active set registers each task's waker under its key and the queue gains exactly the tasks' runnables; the run log is unchanged; the flag ends set exactly when it was set or the batch is non-empty, and at most one waker is woken, only when the flag was clear |
| `ExecutorScenarios.PriorityOrder` | crates/bevy_tasks/src/executor.rs:483-496 | after spawning priorities 5, 1, 5, three ticks run the two priority-5 tasks (either order) then the priority-1 task, and a fourth tick finds nothing |
| `ExecutorScenarios.SpawnThree` | crates/bevy_tasks/src/executor.rs:113-156 | three spawns queue exactly the three runnables |
| `ExecutorScenarios.TickFourTimes` | crates/bevy_tasks/src/executor.rs:483-496 | the four ticks of `PriorityOrder` |
| `ExecutorScenarios.TickFirst` | crates/bevy_tasks/src/executor.rs:484 | the first tick runs one of the priority-5 tasks |
| `ExecutorScenarios.TickSecond` | crates/bevy_tasks/src/executor.rs:484 | the second tick runs the other priority-5 task |
| `ExecutorScenarios.TickLast` | crates/bevy_tasks/src/executor.rs:484 | the third tick runs the priority-1 task and empties the queue |
| `ExecutorScenarios.Tick` | crates/bevy_tasks/src/executor.rs:483-496 | a tick, naming the item of greatest priority it took |
| `ExecutorScenarios.FirstPop` | crates/bevy_tasks/src/executor.rs:409-413 | the greatest of (5,10), (1,11), (5,12) is one of the two 5s |
| `ExecutorScenarios.SecondPop` | crates/bevy_tasks/src/executor.rs:409-413 | after one 5 is gone, the greatest is the other 5 |
| `ExecutorScenarios.LastPop` | crates/bevy_tasks/src/executor.rs:409-413 | the last item popped is the priority-1 one |
| `ExecutorScenarios.NoLostWakeup` | crates/bevy_tasks/src/executor.rs:663-688 | a ticker that finds nothing is pending with its waker registered; a spawn wakes exactly that waker; the next poll returns the spawned runnable |
| `ExecutorScenarios.DroppedTickerForwardsWakeup` | crates/bevy_tasks/src/executor.rs:691-708 | with two sleeping tickers, a spawn wakes the later one, and dropping it wakes the earlier one |
| `GpuDriver.StripPrefix` | crates/bevy_render/src/lib.rs:539 | some remainder exactly when the prefix is a prefix, and prefix plus remainder is the name |
| `GpuDriver.Find` | crates/bevy_render/src/lib.rs:561-562 | the first index at which the pattern occurs, or none when it never does |
| `GpuDriver.FindIsFirstOccurrence` | crates/bevy_render/src/lib.rs:561-562 | an occurrence with none before it is the one `find` reports |
| `GpuDriver.LeadingDigits` | crates/bevy_render/src/lib.rs:544-545 | the longest run of leading ASCII digits |
| `GpuDriver.AdrenoFoldIsDecimal` | crates/bevy_render/src/lib.rs:543-546 | the wrapping `acc * 10 + digit` fold over the digits is their decimal value modulo 2^32 |
| `GpuDriver.AdrenoModel` | crates/bevy_render/src/lib.rs:533-548 | none unless on Android with the `"Adreno (TM) "` prefix; otherwise the decimal value of the digits after it modulo 2^32 |
| `GpuDriver.AdrenoModelOfNumberAndSuffix` | crates/bevy_render/src/lib.rs:541-547 | a model number that fits in `u32`, followed by any non-digit suffix, is returned exactly |
| `GpuDriver.AdrenoModelWithoutDigits` | crates/bevy_render/src/lib.rs:543-546 | with no digit after the prefix the model is 0 |
| `GpuDriver.AdrenoModel642L` | crates/bevy_render/src/lib.rs:541 | "Adreno (TM) 642L" gives 642 |
| `GpuDriver.CheckedFoldIsDecimal` | crates/bevy_render/src/lib.rs:566 | the checked accumulation succeeds exactly on digit strings whose value fits in `u32`, and yields that value |
| `GpuDriver.ParseU32` | crates/bevy_render/src/lib.rs:566 | `parse::<u32>().ok()` succeeds exactly on an optional `+` and a non-empty digit string below 2^32, and yields its decimal value |
| `GpuDriver.VersionText` | crates/bevy_render/src/lib.rs:561-565 | none without a "v1.r"; otherwise the text between the first "v1.r" and the first 'p' at or after it, when there is one |
| `GpuDriver.MaliDriverVersion` | crates/bevy_render/src/lib.rs:551-571 | none off Android, without "Mali" in the name or without a version text; otherwise the `u32` parse of the version text |
| `GpuDriver.MaliWithoutVersionEnd` | crates/bevy_render/src/lib.rs:561-570 | no 'p' after the first "v1.r" gives none |
| `GpuDriver.MaliVersionIsParsedSlice` | crates/bevy_render/src/lib.rs:561-566 | for any driver info with one first "v1.r" followed by a 'p'-free text and a 'p', the result is the parse of exactly that text |
| `GpuDriver.VersionEndAfterMarker` | crates/bevy_render/src/lib.rs:562-564 | from the marker on, the first 'p' is the one after the version text |
| `GpuDriver.MaliVersionExample` | crates/bevy_render/src/lib.rs:551-566 | "Mali-G78" with "v1.r32p1-01eac0" gives 32 |
| `WinitRunner.ShouldUpdate` | crates/bevy_winit/src/state.rs:796-818 | an update happens exactly when the lifecycle is active and the wait elapsed or an event arrived of a kind the mode reacts to (`Continuous` reacts to all) |
| `WinitRunner.ContinuousReactsToEverything` | crates/bevy_winit/src/state.rs:797-815 | `Continuous` decides like a reactive mode that reacts to all three kinds |
| `WinitRunner.ShouldUpdateMonotone` | crates/bevy_winit/src/state.rs:796-818 | more received events or more `react_to_*` switches never cancel an update |
| `WinitRunner.RunnerState.constructor` | crates/bevy_winit/src/state.rs:116-150 | a new runner is `Idle` in `Continuous` mode with all flags clear and five forced start-up updates |
| `WinitRunner.RunnerState.ResetOnUpdate` | crates/bevy_winit/src/state.rs:154-158 | the three event-received flags are cleared and nothing else changes |
| `WinitRunner.RunnerState.NewEvents` | crates/bevy_winit/src/state.rs:213-243 | unless exiting, a redraw is requested while plugins are not cleaned and the wait-elapsed flag follows the start cause |
| `WinitRunner.RunnerState.Resumed` | crates/bevy_winit/src/state.rs:245-249 | the lifecycle becomes `WillResume` |
| `WinitRunner.RunnerState.UserEvent` | crates/bevy_winit/src/state.rs:251-256 | a user event is noted and a redraw requested |
| `WinitRunner.RunnerState.HandleWindowEvent` | crates/bevy_winit/src/state.rs:258-509 | a window event is always noted; for a known window, physical keys outside a preedit are tracked and forwarded, a first preedit loses focus and releases every pressed key, a commit or disable ends the preedit, and a redraw-requested event clears the ran-update flag |
| `WinitRunner.RunnerState.KeyboardInputEvent` | crates/bevy_winit/src/state.rs:326-346 | a physical key event outside a preedit updates the pressed keys and is forwarded; other key events change nothing |
| `WinitRunner.RunnerState.BeginPreedit` | crates/bevy_winit/src/state.rs:445-466 | the first preedit event sends focus-lost, then one release per pressed key, and empties the pressed keys; later ones change nothing |
| `WinitRunner.RunnerState.ReleasePressedKeys` | crates/bevy_winit/src/state.rs:455-465 | every pressed key is released exactly once, in some order, and none stays pressed |
| `WinitRunner.ReleaseOneMore` | crates/bevy_winit/src/state.rs:455-465 | releasing a key not yet released extends the set of releases |
| `WinitRunner.RunnerState.DeviceEvent` | crates/bevy_winit/src/state.rs:519-531 | a device event is noted |
| `WinitRunner.RunnerState.Suspend` | crates/bevy_winit/src/state.rs:572-576 | the lifecycle becomes `WillSuspend` |
| `WinitRunner.RunnerState.RunAppUpdate` | crates/bevy_winit/src/state.rs:820-828 | the event flags are cleared and the app updated once |
| `WinitRunner.RunnerState.ForceStartupUpdate` | crates/bevy_winit/src/state.rs:595-599 | while the start-up counter is positive it is spent and the pass updates |
| `WinitRunner.RunnerState.AdvanceLifecycle` | crates/bevy_winit/src/state.rs:601-627 | `WillSuspend` becomes `Suspended` with an update and the ran-update flag cleared; `WillResume` becomes `Running` with an update and a redraw; others force nothing |
| `WinitRunner.RunnerState.ReportLifecycle` | crates/bevy_winit/src/state.rs:666-670 | a lifecycle different from the last reported one is sent once and remembered |
| `WinitRunner.RunnerState.UpdateApp` | crates/bevy_winit/src/state.rs:676-717 | the app runs unless it already ran since the last redraw and some window is visible, in which case a redraw is requested; a redraw or close request from the update also requests a redraw |
| `WinitRunner.RunnerState.FollowUpdateMode` | crates/bevy_winit/src/state.rs:725-768 | a changed mode is adopted with a redraw and the wait counted as elapsed; `Continuous` with a `Wait` control flow requests a redraw |
| `WinitRunner.RunnerState.IssueRedraws` | crates/bevy_winit/src/state.rs:781-787 | a pending redraw is issued unless suspended, where it stays pending |
| `WinitRunner.RunnerState.BeginPass` | crates/bevy_winit/src/state.rs:592-670 | the first half of a pass: forced updates, lifecycle step and lifecycle report |
| `WinitRunner.RunnerState.FinishPass` | crates/bevy_winit/src/state.rs:676-793 | the second half of a pass: update, mode change, redraws and exit |
| `WinitRunner.RunnerState.RedrawRequested` | crates/bevy_winit/src/state.rs:585-794 | one pass: whether it updates, whether the app ran, the new counter, lifecycle, mode, flags and events, and whether windows were asked to redraw, each in terms of the state before the pass and its inputs |
| `WinitRunner.StartupUpdatesAreForced` | crates/bevy_winit/src/state.rs:595-599 | from a new runner the first five passes update whatever the inputs, and the counter then stays at 0 |
| `WinitRunner.ImeGatesKeyboard` | crates/bevy_winit/src/state.rs:326-485 | a key press during a preedit is dropped; after a commit it is forwarded |

## Left out

- Concurrency:
  - The executor's atomics and mutexes are modelled as sequential steps. No interleaving of two threads is modelled. This includes the compare-and-swap race in `alloc_state`, where a losing thread frees its own state.
  - Mutex poisoning, and `unwrap_or_else(into_inner)` on the active set, are not modelled.
- Reference counting is not modelled: the `Arc` and raw pointer handling of `state_ptr`, `state_as_arc` and `Drop for Executor`.
- Async code:
  - `Executor::tick` and `Executor::run` are async, as is the `State::run` loop that runs 200 tasks and then yields. They are not modelled, since they need an async runtime.
  - `runnable_with`'s `poll_fn` is modelled as one poll (`PollRunnable`) with the run queue as the search.
- Opaque values:
  - The effects of `Runnable::run` and of waking a task's waker are recorded in the `ran` and `woken` logs, not carried out.
  - `TaskExecutor.Executor.Drop`: waking a drained task runs the executor's schedule closure, which queues the task's runnable and notifies. The model does not run it. It requires that no ticker sleeps, because dropping takes the executor by unique borrow and every ticker borrows it, so the flag is already set and the notification wakes nobody. The runnables the closure would queue are removed by the final `clear`, so the model's empty queue is the same.
  - Runnables and wakers are opaque identities handed in as parameters. Their creation by `async_task` (`Builder::spawn_unchecked`, `propagate_panic`) and the returned `Task` handles are not modelled.
- Panics are not modelled: their propagation and the `AsyncCallOnDrop` guard's behaviour on a panicking future. The cleanup closure is the separate step `State.FinishTask`.
- The commented-out `Executor::spawn_many` is not code and is not modelled.
- `Debug` formatting is not modelled.
- `ExecutorQueue.PriorityQueue.Pop`: the order among items of equal priority is left open. It depends on `BinaryHeap`'s internal layout, and the source promises nothing about it. The heap's sift operations are not modelled.
- `ExecutorSlab.Slab`: the `slab` crate is not part of this model. It is modelled by occupied entries, a free list reused last-in first-out, and a slot count. The key order of `drain` is its slot order, but the exact slot layout inside the crate is abstracted.
- `GpuDriver.AdrenoModel`:
  - A debug build panics on `u32` overflow in the fold. The model follows the release build's wrap-around.
  - Strings are sequences of characters, and the model finds and slices them by character index where Rust uses byte offsets. Every delimiter searched for is ASCII, so the text between two found delimiters is the same either way; the byte offsets themselves are not modelled.
- The adapter lookup is not modelled: `RenderAdapter::get_info`. The adapter name and driver info are parameters.
- In `bevy_winit`, the following ECS, winit and clock work is not modelled:
  - the system states and queries;
  - `Instant::now` and the `WaitUntil` deadline of the reactive mode;
  - control-flow selection by window visibility and platform;
  - cursor updates;
  - window and monitor creation;
  - Android surface handling;
  - `forward_bevy_events`;
  - every window event arm other than keyboard input, IME and redraw-requested.

  What the pass needs from them enters through `FrameInputs`.
- `WinitRunner.RunnerState.RunAppUpdate` counts calls of `run_app_update`. Whether `app.update()` itself runs depends on the plugin state, which is outside the model.
- `WinitRunner.RunnerState.HandleWindowEvent` folds the two early returns into one flag, `windowKnown`: unknown window id and missing `Window` component. It leaves out the raw-event buffer and the AccessKit adapter.
- `WinitRunner.RunnerState.HandleWindowEvent` and `WinitRunner.RunnerState.BeginPreedit` log only keyboard input and focus loss in `inputEvents`. The `Ime::Preedit`, `Ime::Commit`, `Ime::Enabled` and `Ime::Disabled` events forwarded to the window-event buffer (state.rs:467-484) are not logged; only their effect on the preedit flag is modelled. The second focus-lost notice, written to the `KeyboardFocusLost` message writer (state.rs:453), is not logged either; the focus-lost entry in the log stands for the one sent to the window-event buffer.
- `WinitRunner.RunnerState.HandleWindowEvent` and `WinitRunner.RunnerState.BeginPreedit` model the pressed keys of a single window. The source keeps one pressed-key map per window (state.rs:281), while the preedit flag is shared by all windows. With several windows, a first preedit in one window releases only that window's keys; the model's single set stands for the window that receives the events.
- The order of key releases when a preedit begins follows the iteration order of a hash map. `WinitRunner.RunnerState.ReleasePressedKeys` states only that each pressed key is released exactly once.
- The logical-key values stored with pressed keys are not modelled; keys are identified by their key code.
- `settings.rs`, `render_resource`, `bevy_window` and the other files of the repository are not part of this model.
