/**
 * The update-decision state machine of the winit runner: which events have
 * arrived since the last update, whether the next pass updates the app, the
 * forced start-up updates, the suspend/resume lifecycle, the redraw flag and
 * the IME flag that gates keyboard input.  Everything the runner asks of the
 * ECS world, of winit or of the clock arrives as an input of the pass
 * (`FrameInputs`) or of the event handler.
 */
module WinitRunner {

  /** bevy_window's `AppLifecycle`. */
  datatype Lifecycle = Idle | Running | WillSuspend | Suspended | WillResume

  /** `UpdateMode`; `wait` stands for the `Duration` of the reactive timeout. */
  datatype UpdateMode =
    | Continuous
    | Reactive(wait: nat, reactToDeviceEvents: bool, reactToUserEvents: bool, reactToWindowEvents: bool)

  /** The three kinds of event the runner remembers having received. */
  datatype EventKind = WindowEvents | DeviceEvents | UserEvents

  datatype EventFlags = EventFlags(window: bool, device: bool, user: bool)

  function Received(flags: EventFlags, kind: EventKind): bool {
    match kind
    case WindowEvents => flags.window
    case DeviceEvents => flags.device
    case UserEvents => flags.user
  }

  /** Whether a mode lets an event of the given kind trigger an update: always in `Continuous`. */
  function Reacts(mode: UpdateMode, kind: EventKind): bool {
    match mode
    case Continuous => true
    case Reactive(_, device, user, window) =>
      match kind
      case WindowEvents => window
      case DeviceEvents => device
      case UserEvents => user
  }

  /**
   * `should_update`: an elapsed wait, or a received event the mode reacts
   * to, triggers an update, and only while the lifecycle is active.
   */
  function ShouldUpdate(mode: UpdateMode, waitElapsed: bool, flags: EventFlags, active: bool): (r: bool)
    ensures r <==> active && (waitElapsed || exists kind :: Reacts(mode, kind) && Received(flags, kind))
  {
    var handleEvent :=
      match mode
      case Continuous =>
        waitElapsed || flags.user || flags.window || flags.device
      case Reactive(_, reactToDevice, reactToUser, reactToWindow) =>
        waitElapsed
        || (reactToDevice && flags.device)
        || (reactToUser && flags.user)
        || (reactToWindow && flags.window);
    assert Reacts(mode, WindowEvents) && Received(flags, WindowEvents) ==> handleEvent;
    assert Reacts(mode, DeviceEvents) && Received(flags, DeviceEvents) ==> handleEvent;
    assert Reacts(mode, UserEvents) && Received(flags, UserEvents) ==> handleEvent;
    handleEvent && active
  }

  /** `Continuous` behaves as a reactive mode that reacts to everything. */
  lemma ContinuousReactsToEverything(wait: nat, waitElapsed: bool, flags: EventFlags, active: bool)
    ensures ShouldUpdate(Continuous, waitElapsed, flags, active)
         == ShouldUpdate(Reactive(wait, true, true, true), waitElapsed, flags, active)
  {
    var r := ShouldUpdate(Continuous, waitElapsed, flags, active);
    var s := ShouldUpdate(Reactive(wait, true, true, true), waitElapsed, flags, active);
    if r {
      if !waitElapsed {
        var kind :| Reacts(Continuous, kind) && Received(flags, kind);
        assert Reacts(Reactive(wait, true, true, true), kind);
      }
    }
  }

  /** More received events, or more `react_to_*` switches turned on, never cancel an update. */
  lemma ShouldUpdateMonotone(mode: UpdateMode, mode': UpdateMode, waitElapsed: bool, flags: EventFlags, flags': EventFlags, active: bool)
    requires forall kind :: Reacts(mode, kind) ==> Reacts(mode', kind)
    requires forall kind :: Received(flags, kind) ==> Received(flags', kind)
    requires ShouldUpdate(mode, waitElapsed, flags, active)
    ensures ShouldUpdate(mode', waitElapsed, flags', active)
  {
    if !waitElapsed {
      var kind :| Reacts(mode, kind) && Received(flags, kind);
      assert Reacts(mode', kind) && Received(flags', kind);
    }
  }

  /** The lifecycle after the transition step of a redraw pass. */
  function NextLifecycle(l: Lifecycle): Lifecycle {
    match l
    case WillSuspend => Suspended
    case WillResume => Running
    case _ => l
  }

  /** What a redraw pass learns from the world, the app and winit. */
  datatype FrameInputs = FrameInputs(
    modeBefore: UpdateMode,      // `config.update_mode(focused)` before the update
    modeAfter: UpdateMode,       // the same, re-extracted after the update
    allInvisible: bool,          // no window is visible (or there is none)
    appRequestedRedraw: bool,    // a `RequestRedraw` event is buffered after the update step
    closeRequested: bool,        // a `WindowCloseRequested` event is buffered after the update step
    continuousWaits: bool,       // in `Continuous` mode the control flow ends up `Wait`
    exitRequested: bool)         // `app.should_exit()` returned an exit code

  /** The window events whose flag handling the runner performs. */
  datatype WindowEvent =
    | KeyboardInput(key: nat, pressed: bool, isSynthetic: bool)
    | ImePreedit
    | ImeCommit
    | ImeEnabled
    | ImeDisabled
    | RedrawRequestedEvent
    | OtherWindowEvent

  /** The input events the runner forwards to the app. */
  datatype InputEvent = Key(key: nat, pressed: bool) | KeyboardFocusLost

  /** `evs` releases each key of `keys` once, in some order. */
  predicate ReleasesOf(evs: seq<InputEvent>, keys: set<nat>) {
    && |evs| == |keys|
    && (forall i :: 0 <= i < |evs| ==> evs[i].Key? && !evs[i].pressed && evs[i].key in keys)
    && (forall i, j :: 0 <= i < j < |evs| ==> evs[i] != evs[j])
  }

  const STARTUP_FORCED_UPDATES: nat := 5

  /**
   * `WinitAppRunnerState`, reduced to its flags, counters and event logs.
   * Each method names in its `modifies` clause the fields it may change,
   * so every other field keeps its value.
   */
  class RunnerState {
    /** `AppLifecycle::is_active`, which lives outside this model. */
    const isActive: Lifecycle -> bool

    var updateMode: UpdateMode
    var windowEventReceived: bool
    var deviceEventReceived: bool
    var userEventReceived: bool
    var redrawRequested: bool
    var imePreeditActive: bool
    var ranUpdateSinceLastRedraw: bool
    var waitElapsed: bool
    var startupForcedUpdates: nat
    var lifecycle: Lifecycle
    var previousLifecycle: Lifecycle
    /** `app_exit.is_some()`. */
    var appExit: bool
    /** The `AppLifecycle` events sent, in order. */
    var lifecycleEvents: seq<Lifecycle>
    /** The `WinitWindowPressedKeys` of the window. */
    var pressedKeys: set<nat>
    /** The keyboard events sent, in order. */
    var inputEvents: seq<InputEvent>
    /** How many times `run_app_update` ran. */
    var updates: nat
    /** How many times redraws were requested of all windows. */
    var redraws: nat

    function Flags(): EventFlags
      reads this
    {
      EventFlags(windowEventReceived, deviceEventReceived, userEventReceived)
    }

    /** `self.should_update(update_mode)`. */
    function ShouldUpdateNow(mode: UpdateMode): bool
      reads this
    {
      ShouldUpdate(mode, waitElapsed, Flags(), isActive(lifecycle))
    }

    /** `WinitAppRunnerState::new`. */
    constructor (isActive: Lifecycle -> bool)
      ensures this.isActive == isActive
      ensures updateMode == Continuous && Flags() == EventFlags(false, false, false)
      ensures !redrawRequested && !imePreeditActive && !ranUpdateSinceLastRedraw && !waitElapsed
      ensures startupForcedUpdates == STARTUP_FORCED_UPDATES
      ensures lifecycle == Idle && previousLifecycle == Idle && !appExit
      ensures lifecycleEvents == [] && pressedKeys == {} && inputEvents == []
      ensures updates == 0 && redraws == 0
    {
      this.isActive := isActive;
      updateMode := Continuous;
      windowEventReceived, deviceEventReceived, userEventReceived := false, false, false;
      redrawRequested, imePreeditActive := false, false;
      ranUpdateSinceLastRedraw, waitElapsed := false, false;
      // The first passes always update, so that the app finishes starting
      startupForcedUpdates := STARTUP_FORCED_UPDATES;
      lifecycle, previousLifecycle := Idle, Idle;
      appExit := false;
      lifecycleEvents, pressedKeys, inputEvents := [], {}, [];
      updates, redraws := 0, 0;
    }

    /** `reset_on_update`: clears the three event-received flags and nothing else. */
    method ResetOnUpdate()
      modifies this`windowEventReceived, this`deviceEventReceived, this`userEventReceived
      ensures Flags() == EventFlags(false, false, false)
    {
      windowEventReceived := false;
      deviceEventReceived := false;
      userEventReceived := false;
    }

    /** `new_events`: `elapsed` is what the start cause says about the wait. */
    method NewEvents(exiting: bool, pluginsCleaned: bool, elapsed: bool)
      modifies this`redrawRequested, this`waitElapsed
      ensures redrawRequested == (old(redrawRequested) || (!exiting && !pluginsCleaned))
      ensures waitElapsed == if exiting then old(waitElapsed) else elapsed
    {
      if exiting {
        return;
      }
      if !pluginsCleaned {
        redrawRequested := true;
      }
      waitElapsed := elapsed;
    }

    /** `resumed`: the next pass runs one extra update to resume. */
    method Resumed()
      modifies this`lifecycle
      ensures lifecycle == WillResume
    {
      lifecycle := WillResume;
    }

    /** `suspended`: the next pass runs one last update before suspending. */
    method Suspend()
      modifies this`lifecycle
      ensures lifecycle == WillSuspend
    {
      lifecycle := WillSuspend;
    }

    /** `user_event`. */
    method UserEvent()
      modifies this`userEventReceived, this`redrawRequested
      ensures userEventReceived && redrawRequested
    {
      userEventReceived := true;
      redrawRequested := true;
    }

    /** `device_event`. */
    method DeviceEvent()
      modifies this`deviceEventReceived
      ensures deviceEventReceived
    {
      deviceEventReceived := true;
    }

    /**
     * `window_event`, restricted to its flags: `windowKnown` is false when
     * the window id or its `Window` component cannot be found, in which case
     * the handler returns right after noting that an event arrived.  A
     * physical key event outside a preedit is forwarded; the first preedit
     * event loses the keyboard focus and releases every pressed key; a
     * commit or a disable ends the preedit.
     */
    method HandleWindowEvent(windowKnown: bool, event: WindowEvent)
      modifies this`windowEventReceived, this`imePreeditActive, this`ranUpdateSinceLastRedraw
      modifies this`pressedKeys, this`inputEvents
      ensures windowEventReceived
      ensures imePreeditActive ==
        if windowKnown && event.ImePreedit? then true
        else if windowKnown && (event.ImeCommit? || event.ImeDisabled?) then false
        else old(imePreeditActive)
      ensures ranUpdateSinceLastRedraw == (old(ranUpdateSinceLastRedraw) && !(windowKnown && event.RedrawRequestedEvent?))
      ensures windowKnown && event.KeyboardInput? && !event.isSynthetic && !old(imePreeditActive) ==>
        && pressedKeys == (if event.pressed then old(pressedKeys) + {event.key} else old(pressedKeys) - {event.key})
        && inputEvents == old(inputEvents) + [Key(event.key, event.pressed)]
      ensures windowKnown && event.ImePreedit? && !old(imePreeditActive) ==>
        && pressedKeys == {}
        && |inputEvents| == |old(inputEvents)| + 1 + |old(pressedKeys)|
        && inputEvents[..|old(inputEvents)| + 1] == old(inputEvents) + [KeyboardFocusLost]
        && ReleasesOf(inputEvents[|old(inputEvents)| + 1..], old(pressedKeys))
      ensures (!(windowKnown && event.KeyboardInput? && !event.isSynthetic && !old(imePreeditActive))
            && !(windowKnown && event.ImePreedit? && !old(imePreeditActive))) ==>
        pressedKeys == old(pressedKeys) && inputEvents == old(inputEvents)
    {
      windowEventReceived := true;
      if !windowKnown {
        return;
      }
      match event {
        case KeyboardInput(key, pressed, isSynthetic) =>
          KeyboardInputEvent(key, pressed, isSynthetic);
        case ImePreedit =>
          BeginPreedit();
        case ImeCommit =>
          imePreeditActive := false;
        case ImeEnabled =>
        case ImeDisabled =>
          imePreeditActive := false;
        case RedrawRequestedEvent =>
          ranUpdateSinceLastRedraw := false;
        case OtherWindowEvent =>
      }
    }

    /**
     * The `KeyboardInput` arm: a physical key event outside a preedit updates
     * the pressed keys and is forwarded; synthetic ones and those during a
     * preedit are dropped.
     */
    method KeyboardInputEvent(key: nat, pressed: bool, isSynthetic: bool)
      modifies this`pressedKeys, this`inputEvents
      ensures !isSynthetic && !imePreeditActive ==>
        && pressedKeys == (if pressed then old(pressedKeys) + {key} else old(pressedKeys) - {key})
        && inputEvents == old(inputEvents) + [Key(key, pressed)]
      ensures isSynthetic || imePreeditActive ==>
        pressedKeys == old(pressedKeys) && inputEvents == old(inputEvents)
    {
      if !isSynthetic && !imePreeditActive {
        if pressed {
          pressedKeys := pressedKeys + {key};
        } else {
          pressedKeys := pressedKeys - {key};
        }
        inputEvents := inputEvents + [Key(key, pressed)];
      }
    }

    /**
     * The `Ime::Preedit` arm: the first preedit event makes the app lose
     * keyboard focus and releases every pressed key; later ones change nothing.
     */
    method BeginPreedit()
      modifies this`imePreeditActive, this`pressedKeys, this`inputEvents
      ensures imePreeditActive
      ensures old(imePreeditActive) ==> pressedKeys == old(pressedKeys) && inputEvents == old(inputEvents)
      ensures !old(imePreeditActive) ==>
        && pressedKeys == {}
        && |inputEvents| == |old(inputEvents)| + 1 + |old(pressedKeys)|
        && inputEvents[..|old(inputEvents)| + 1] == old(inputEvents) + [KeyboardFocusLost]
        && ReleasesOf(inputEvents[|old(inputEvents)| + 1..], old(pressedKeys))
    {
      if !imePreeditActive {
        imePreeditActive := true;
        inputEvents := inputEvents + [KeyboardFocusLost];
        ReleasePressedKeys();
      }
    }

    /** `pressed_keys.0.drain()`, sending a release for each key in the map's order. */
    method ReleasePressedKeys()
      modifies this`pressedKeys, this`inputEvents
      ensures pressedKeys == {}
      ensures |inputEvents| == |old(inputEvents)| + |old(pressedKeys)|
      ensures inputEvents[..|old(inputEvents)|] == old(inputEvents)
      ensures ReleasesOf(inputEvents[|old(inputEvents)|..], old(pressedKeys))
    {
      ghost var releases: seq<InputEvent> := [];
      ghost var released: set<nat> := {};
      while pressedKeys != {}
        invariant pressedKeys + released == old(pressedKeys) && pressedKeys !! released
        invariant inputEvents == old(inputEvents) + releases
        invariant ReleasesOf(releases, released)
        decreases pressedKeys
      {
        var key :| key in pressedKeys;
        ReleaseOneMore(releases, released, key);
        inputEvents := inputEvents + [Key(key, false)];
        releases := releases + [Key(key, false)];
        pressedKeys := pressedKeys - {key};
        released := released + {key};
      }
      assert inputEvents[|old(inputEvents)|..] == releases;
    }

    /** `run_app_update`: the event flags are cleared and the app updated. */
    method RunAppUpdate()
      modifies this`windowEventReceived, this`deviceEventReceived, this`userEventReceived, this`updates
      ensures Flags() == EventFlags(false, false, false)
      ensures updates == old(updates) + 1
    {
      ResetOnUpdate();
      updates := updates + 1;
    }

    /** The start-up step of a pass: while the counter lasts it is spent and the pass updates. */
    method ForceStartupUpdate() returns (forced: bool)
      modifies this`startupForcedUpdates
      ensures forced == (old(startupForcedUpdates) > 0)
      ensures startupForcedUpdates == if forced then old(startupForcedUpdates) - 1 else 0
    {
      forced := false;
      if startupForcedUpdates > 0 {
        startupForcedUpdates := startupForcedUpdates - 1;
        forced := true;
      }
    }

    /**
     * The lifecycle step of a pass: `WillSuspend` becomes `Suspended` with
     * one last update, `WillResume` becomes `Running` with an update and a
     * redraw; any other lifecycle stays and forces nothing.
     */
    method AdvanceLifecycle() returns (forced: bool)
      modifies this`lifecycle, this`ranUpdateSinceLastRedraw, this`redrawRequested
      ensures forced == (old(lifecycle) == WillSuspend || old(lifecycle) == WillResume)
      ensures lifecycle == NextLifecycle(old(lifecycle))
      ensures ranUpdateSinceLastRedraw == (old(ranUpdateSinceLastRedraw) && old(lifecycle) != WillSuspend)
      ensures redrawRequested == (old(redrawRequested) || old(lifecycle) == WillResume)
    {
      forced := false;
      if lifecycle == WillSuspend {
        lifecycle := Suspended;
        // The app updates once more, now seeing the suspended lifecycle
        forced := true;
        ranUpdateSinceLastRedraw := false;
      }
      if lifecycle == WillResume {
        lifecycle := Running;
        // The app updates, now seeing the running lifecycle, and a redraw follows
        forced := true;
        redrawRequested := true;
      }
    }

    /** A lifecycle that differs from the last one reported is recorded and sent as an event. */
    method ReportLifecycle()
      modifies this`previousLifecycle, this`lifecycleEvents
      ensures previousLifecycle == lifecycle
      ensures lifecycleEvents == old(lifecycleEvents) + (if lifecycle != old(previousLifecycle) then [lifecycle] else [])
    {
      if lifecycle != previousLifecycle {
        previousLifecycle := lifecycle;
        lifecycleEvents := lifecycleEvents + [lifecycle];
      }
    }

    /**
     * The update step of a pass that should update: the app runs unless it
     * already ran since the last redraw and some window is visible, in which
     * case a redraw is requested instead; a redraw or close request sent by
     * the update also requests a redraw.
     */
    method UpdateApp(env: FrameInputs) returns (ranUpdate: bool)
      modifies this`windowEventReceived, this`deviceEventReceived, this`userEventReceived, this`updates
      modifies this`ranUpdateSinceLastRedraw, this`redrawRequested
      ensures ranUpdate == (!old(ranUpdateSinceLastRedraw) || env.allInvisible)
      ensures Flags() == if ranUpdate then EventFlags(false, false, false) else old(Flags())
      ensures updates == old(updates) + (if ranUpdate then 1 else 0)
      ensures ranUpdateSinceLastRedraw
      ensures redrawRequested == (old(redrawRequested) || !ranUpdate || env.appRequestedRedraw || env.closeRequested)
    {
      ranUpdate := false;
      if !ranUpdateSinceLastRedraw || env.allInvisible {
        RunAppUpdate();
        ranUpdateSinceLastRedraw := true;
        ranUpdate := true;
      } else {
        redrawRequested := true;
      }
      if env.appRequestedRedraw {
        redrawRequested := true;
      }
      if env.closeRequested {
        redrawRequested := true;
      }
    }

    /**
     * A changed update mode is adopted, with a redraw and the wait counted as
     * elapsed; in `Continuous` mode a `Wait` control flow also requests a redraw.
     */
    method FollowUpdateMode(mode: UpdateMode, continuousWaits: bool)
      modifies this`updateMode, this`waitElapsed, this`redrawRequested
      ensures updateMode == mode
      ensures waitElapsed == (old(waitElapsed) || mode != old(updateMode))
      ensures redrawRequested == (old(redrawRequested) || mode != old(updateMode) || (mode.Continuous? && continuousWaits))
    {
      if mode != updateMode {
        // A new mode takes effect with a redraw and a wait counted as elapsed,
        // since a user event may have cut the old wait short
        redrawRequested := true;
        waitElapsed := true;
        updateMode := mode;
      }
      match mode {
        case Continuous =>
          if continuousWaits {
            redrawRequested := true;
          }
        case Reactive(_, _, _, _) =>
      }
    }

    /** A pending redraw is issued to every window unless the app is suspended, where it stays pending. */
    method IssueRedraws()
      modifies this`redraws, this`redrawRequested
      ensures redrawRequested == (old(redrawRequested) && lifecycle == Suspended)
      ensures redraws == old(redraws) + (if old(redrawRequested) && lifecycle != Suspended then 1 else 0)
    {
      if redrawRequested && lifecycle != Suspended {
        redraws := redraws + 1;
        redrawRequested := false;
      }
    }

    /**
     * The first half of `redraw_requested`: decide whether to update
     * (forced while the start-up counter lasts and on a lifecycle step),
     * move `WillSuspend`/`WillResume` on and report a lifecycle change.
     */
    method BeginPass(mode: UpdateMode) returns (shouldUpdate: bool)
      modifies this`startupForcedUpdates, this`lifecycle, this`previousLifecycle, this`lifecycleEvents
      modifies this`ranUpdateSinceLastRedraw, this`redrawRequested
      ensures shouldUpdate == (old(startupForcedUpdates) > 0
        || old(lifecycle) == WillSuspend || old(lifecycle) == WillResume
        || old(ShouldUpdateNow(mode)))
      ensures startupForcedUpdates == if old(startupForcedUpdates) > 0 then old(startupForcedUpdates) - 1 else 0
      ensures lifecycle == NextLifecycle(old(lifecycle))
      ensures previousLifecycle == lifecycle
      ensures lifecycleEvents == old(lifecycleEvents)
        + (if lifecycle != old(previousLifecycle) then [lifecycle] else [])
      ensures ranUpdateSinceLastRedraw == (old(ranUpdateSinceLastRedraw) && old(lifecycle) != WillSuspend)
      ensures redrawRequested == (old(redrawRequested) || old(lifecycle) == WillResume)
    {
      shouldUpdate := ShouldUpdateNow(mode);
      var startup := ForceStartupUpdate();
      var lifecycleStep := AdvanceLifecycle();
      shouldUpdate := shouldUpdate || startup || lifecycleStep;
      // The new lifecycle, if any, is reported once
      ReportLifecycle();
    }

    /**
     * The second half of `redraw_requested`: run the update unless one
     * already ran since the last redraw, follow a change of update mode,
     * request redraws unless suspended, and note an exit request.
     */
    method FinishPass(env: FrameInputs, shouldUpdate: bool) returns (ranUpdate: bool)
      modifies this`windowEventReceived, this`deviceEventReceived, this`userEventReceived, this`updates
      modifies this`ranUpdateSinceLastRedraw, this`redrawRequested, this`updateMode, this`waitElapsed
      modifies this`redraws, this`appExit
      ensures ranUpdate == (shouldUpdate && (!old(ranUpdateSinceLastRedraw) || env.allInvisible))
      ensures updates == old(updates) + (if ranUpdate then 1 else 0)
      ensures Flags() == if ranUpdate then EventFlags(false, false, false) else old(Flags())
      ensures ranUpdateSinceLastRedraw == (shouldUpdate || old(ranUpdateSinceLastRedraw))
      ensures updateMode == if shouldUpdate then env.modeAfter else env.modeBefore
      ensures waitElapsed == (old(waitElapsed) || updateMode != old(updateMode))
      ensures
        var pending := old(redrawRequested)
          || (shouldUpdate && (!ranUpdate || env.appRequestedRedraw || env.closeRequested))
          || updateMode != old(updateMode)
          || (updateMode.Continuous? && env.continuousWaits);
        && redrawRequested == (pending && lifecycle == Suspended)
        && redraws == old(redraws) + (if pending && lifecycle != Suspended then 1 else 0)
      ensures appExit == (old(appExit) || env.exitRequested)
    {
      var mode := env.modeBefore;
      ranUpdate := false;
      if shouldUpdate {
        ranUpdate := UpdateApp(env);
        // The mode is read again after the update, which may have changed the settings
        mode := env.modeAfter;
      }
      FollowUpdateMode(mode, env.continuousWaits);
      IssueRedraws();
      if env.exitRequested {
        appExit := true;
      }
    }

    /**
     * `redraw_requested`, one pass of the runner: decide whether to update
     * (forced while the start-up counter lasts and on a lifecycle step),
     * move `WillSuspend`/`WillResume` on, report a lifecycle change, run the
     * update unless one already ran since the last redraw, follow a change of
     * update mode, and request redraws unless suspended.
     */
    method RedrawRequested(env: FrameInputs) returns (shouldUpdate: bool, ranUpdate: bool)
      modifies this`updateMode, this`windowEventReceived, this`deviceEventReceived, this`userEventReceived
      modifies this`redrawRequested, this`ranUpdateSinceLastRedraw, this`waitElapsed
      modifies this`startupForcedUpdates, this`lifecycle, this`previousLifecycle, this`appExit
      modifies this`lifecycleEvents, this`updates, this`redraws
      ensures shouldUpdate == (old(startupForcedUpdates) > 0
        || old(lifecycle) == WillSuspend || old(lifecycle) == WillResume
        || old(ShouldUpdateNow(env.modeBefore)))
      ensures startupForcedUpdates == if old(startupForcedUpdates) > 0 then old(startupForcedUpdates) - 1 else 0
      ensures lifecycle == NextLifecycle(old(lifecycle))
      ensures previousLifecycle == lifecycle
      ensures lifecycleEvents == old(lifecycleEvents)
        + (if lifecycle != old(previousLifecycle) then [lifecycle] else [])
      ensures ranUpdate == (shouldUpdate && (!old(ranUpdateSinceLastRedraw) || old(lifecycle) == WillSuspend || env.allInvisible))
      ensures updates == old(updates) + (if ranUpdate then 1 else 0)
      ensures ranUpdateSinceLastRedraw == (shouldUpdate || (old(ranUpdateSinceLastRedraw) && old(lifecycle) != WillSuspend))
      ensures Flags() == if ranUpdate then EventFlags(false, false, false) else old(Flags())
      ensures updateMode == if shouldUpdate then env.modeAfter else env.modeBefore
      ensures waitElapsed == (old(waitElapsed) || updateMode != old(updateMode))
      ensures
        var pending := old(redrawRequested) || old(lifecycle) == WillResume
          || (shouldUpdate && (!ranUpdate || env.appRequestedRedraw || env.closeRequested))
          || updateMode != old(updateMode)
          || (updateMode.Continuous? && env.continuousWaits);
        && redrawRequested == (pending && lifecycle == Suspended)
        && redraws == old(redraws) + (if pending && lifecycle != Suspended then 1 else 0)
      ensures appExit == (old(appExit) || env.exitRequested)
    {
      shouldUpdate := BeginPass(env.modeBefore);
      ranUpdate := FinishPass(env, shouldUpdate);
    }
  }

  /** Appending the release of a key not yet released extends the set of releases by that key. */
  lemma {:induction false} ReleaseOneMore(evs: seq<InputEvent>, released: set<nat>, key: nat)
    requires ReleasesOf(evs, released)
    requires key !in released
    ensures ReleasesOf(evs + [Key(key, false)], released + {key})
  {
    var evs' := evs + [Key(key, false)];
    forall i, j | 0 <= i < j < |evs'|
      ensures evs'[i] != evs'[j]
    {
      if j == |evs| {
        assert evs'[i] == evs[i] && evs[i].key in released;
      } else {
        assert evs'[i] == evs[i] && evs'[j] == evs[j];
      }
    }
  }

  /**
   * From a fresh runner, each of the first five redraw passes updates,
   * whatever the inputs and flags are, and the counter then stays at 0.
   */
  method StartupUpdatesAreForced(isActive: Lifecycle -> bool, envs: seq<FrameInputs>)
    returns (forced: seq<bool>, remaining: nat)
    ensures |forced| == |envs|
    ensures forall i :: 0 <= i < |envs| && i < STARTUP_FORCED_UPDATES ==> forced[i]
    ensures remaining == if |envs| < STARTUP_FORCED_UPDATES then STARTUP_FORCED_UPDATES - |envs| else 0
  {
    var runner := new RunnerState(isActive);
    forced := [];
    var i := 0;
    while i < |envs|
      invariant 0 <= i <= |envs| && |forced| == i
      invariant runner.startupForcedUpdates == if i < STARTUP_FORCED_UPDATES then STARTUP_FORCED_UPDATES - i else 0
      invariant forall j :: 0 <= j < i && j < STARTUP_FORCED_UPDATES ==> forced[j]
    {
      var update, _ := runner.RedrawRequested(envs[i]);
      forced := forced + [update];
      i := i + 1;
    }
    remaining := runner.startupForcedUpdates;
  }

  /**
   * While an IME preedit is active, physical key presses are dropped; a
   * commit ends the preedit and keys are forwarded again.
   */
  method ImeGatesKeyboard(isActive: Lifecycle -> bool, key: nat)
    returns (duringPreedit: seq<InputEvent>, afterCommit: seq<InputEvent>)
    ensures duringPreedit == [KeyboardFocusLost]
    ensures afterCommit == [KeyboardFocusLost, Key(key, true)]
  {
    var runner := new RunnerState(isActive);
    runner.HandleWindowEvent(true, ImePreedit);
    assert runner.inputEvents[..1] == [KeyboardFocusLost];
    runner.HandleWindowEvent(true, KeyboardInput(key, true, false));
    duringPreedit := runner.inputEvents;
    runner.HandleWindowEvent(true, ImeCommit);
    runner.HandleWindowEvent(true, KeyboardInput(key, true, false));
    afterCommit := runner.inputEvents;
  }
}
