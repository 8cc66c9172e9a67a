/** The key-state detector: a global event tap that watches the Caps Lock
    key, deduplicates flag changes and reports the new state, together with
    the accessibility-permission gate that decides when the tap may be
    installed.

    OS services are inputs: whether the process is trusted, whether tap and
    run-loop-source creation succeed, and the current system Caps Lock state
    are all passed in. Every transition runs on the main run loop, so the
    `DispatchQueue.main.async` hops around `onChange` and the seeding of the
    last state are taken as happening in order, at once. The one hop kept
    explicit is the re-enable scheduled after the OS disables the tap: it
    can run after a `stop()` and must then find no tap. */
module CapsLockMonitor {
  import opened Wrappers

  /** Virtual key code of the Caps Lock key. */
  const CapsLockKeyCode: int := 57

  /** The alpha-shift (Caps Lock) bit of a CGEventFlags word. */
  const MaskAlphaShift: bv64 := 0x0001_0000

  // ---------------------------------------------------------------------
  // The tap callback
  // ---------------------------------------------------------------------

  /** The events the tap callback can receive. The tap subscribes only to
      flag changes and key-downs; `OtherEvent` is kept so that the
      classification of event types is total. */
  datatype TapEvent =
    | FlagsChanged(flags: bv64)
    | KeyDown(keyCode: int)
    | TapDisabledByTimeout
    | TapDisabledByUserInput
    | OtherEvent

  predicate IsTapDisabled(e: TapEvent) {
    e.TapDisabledByTimeout? || e.TapDisabledByUserInput?
  }

  predicate IsCapsKeyDown(e: TapEvent) {
    e.KeyDown? && e.keyCode == CapsLockKeyCode
  }

  /** Whether a flags word has the alpha-shift bit set. */
  function CapsBit(flags: bv64): (r: bool)
    ensures r <==> (flags >> 16) & 1 == 1
  {
    flags & MaskAlphaShift != 0
  }

  /** What one callback invocation does: the new `lastCapsOn`, the value
      handed to `onChange` (if any), whether a tap re-enable is scheduled,
      and whether the event is passed on (`nil` is returned otherwise). */
  datatype Reaction = Reaction(lastCapsOn: Option<bool>, emitted: Option<bool>, reenable: bool, passThrough: bool)

  /** The tap callback, given the monitor's `lastCapsOn` and the system Caps
      Lock state that `NSEvent.modifierFlags` would report right now. */
  function Callback(last: Option<bool>, e: TapEvent, sysCaps: bool): (r: Reaction)
    // Disable notifications only schedule a re-enable and are swallowed;
    // every other event is passed on unchanged.
    ensures r.reenable <==> IsTapDisabled(e)
    ensures r.passThrough <==> !IsTapDisabled(e)
    // No notification without the matching update, no update without one.
    ensures r.emitted.Some? ==> r.lastCapsOn == r.emitted
    ensures r.emitted.None? ==> r.lastCapsOn == last
    // The flags path: emit exactly when the alpha-shift bit differs from
    // the last known state; the last state is that bit afterwards.
    ensures e.FlagsChanged? ==>
              && r.lastCapsOn == Some(CapsBit(e.flags))
              && (r.emitted.Some? <==> last != Some(CapsBit(e.flags)))
    // The Caps Lock key-down path: always emit the system state, even when
    // it equals the last one.
    ensures IsCapsKeyDown(e) ==> r.emitted == Some(sysCaps)
    // Every other event: no emission, nothing recorded.
    ensures !e.FlagsChanged? && !IsCapsKeyDown(e) ==> r.emitted.None? && r.lastCapsOn == last
  {
    if IsTapDisabled(e) then
      Reaction(last, None, true, false)
    else if IsCapsKeyDown(e) then
      Reaction(Some(sysCaps), Some(sysCaps), false, true)
    else if !e.FlagsChanged? then
      Reaction(last, None, false, true)
    else
      var capsOn := CapsBit(e.flags);
      if last != Some(capsOn) then Reaction(Some(capsOn), Some(capsOn), false, true)
      else Reaction(last, None, false, true)
  }

  /** The result of feeding a sequence of events to the callback. */
  datatype Fed = Fed(last: Option<bool>, emitted: seq<bool>)

  /** Feeds (event, system Caps Lock state) pairs to the callback in order. */
  function Feed(last: Option<bool>, events: seq<(TapEvent, bool)>): Fed
    decreases |events|
  {
    if |events| == 0 then Fed(last, [])
    else
      var r := Callback(last, events[0].0, events[0].1);
      var rest := Feed(r.lastCapsOn, events[1..]);
      Fed(rest.last, (if r.emitted.Some? then [r.emitted.value] else []) + rest.emitted)
  }

  ghost predicate FlagsOnly(events: seq<(TapEvent, bool)>) {
    forall i :: 0 <= i < |events| ==> events[i].0.FlagsChanged?
  }

  /** The alpha-shift bits carried by a flags-only event sequence. */
  function Bits(events: seq<(TapEvent, bool)>): (bits: seq<bool>)
    requires FlagsOnly(events)
    ensures |bits| == |events|
    ensures forall i :: 0 <= i < |events| ==> bits[i] == CapsBit(events[i].0.flags)
    decreases |events|
  {
    if |events| == 0 then [] else [CapsBit(events[0].0.flags)] + Bits(events[1..])
  }

  /** The number of value changes in `bits`, the first one compared with
      `prev` (an unknown `prev` differs from everything). */
  function Changes(prev: Option<bool>, bits: seq<bool>): nat
    decreases |bits|
  {
    if |bits| == 0 then 0
    else (if prev != Some(bits[0]) then 1 else 0) + Changes(Some(bits[0]), bits[1..])
  }

  /** No notification repeats the one before it (the first one differs from
      `prev`). */
  ghost predicate NoRepeats(prev: Option<bool>, s: seq<bool>) {
    && (|s| > 0 ==> prev != Some(s[0]))
    && forall i :: 0 < i < |s| ==> s[i] != s[i - 1]
  }

  /** Dedup invariant of the flags path: over flags-changed events only, the
      notifications are exactly one per value change, none repeats its
      predecessor, and the last state ends as the last bit seen. */
  lemma {:induction false} FlagsDedup(last: Option<bool>, events: seq<(TapEvent, bool)>)
    requires FlagsOnly(events)
    ensures |Feed(last, events).emitted| == Changes(last, Bits(events))
    ensures NoRepeats(last, Feed(last, events).emitted)
    ensures |events| > 0 ==> Feed(last, events).last == Some(CapsBit(events[|events| - 1].0.flags))
    ensures |events| == 0 ==> Feed(last, events).last == last
    decreases |events|
  {
    if |events| > 0 {
      var r := Callback(last, events[0].0, events[0].1);
      var bit := CapsBit(events[0].0.flags);
      assert FlagsOnly(events[1..]) by {
        forall i | 0 <= i < |events[1..]| ensures events[1..][i].0.FlagsChanged? {
          assert events[1..][i] == events[i + 1];
        }
      }
      FlagsDedup(r.lastCapsOn, events[1..]);
      assert Bits(events)[1..] == Bits(events[1..]);
      assert Bits(events)[0] == bit;
      var rest := Feed(r.lastCapsOn, events[1..]).emitted;
      var all := Feed(last, events).emitted;
      if r.emitted.Some? {
        assert all == [bit] + rest;
        forall i | 0 < i < |all| ensures all[i] != all[i - 1] {
          if i > 1 {
            assert all[i] == rest[i - 1] && all[i - 1] == rest[i - 2];
          }
        }
      } else {
        assert all == rest;
      }
      if |events| > 1 {
        assert events[1..][|events[1..]| - 1] == events[|events| - 1];
      }
    }
  }

  /** The key-down path does not deduplicate: with Caps Lock already known to
      be on, a Caps Lock key-down that finds it still on notifies again. */
  lemma KeyDownRepeatsUnchangedState()
    ensures Callback(Some(true), KeyDown(CapsLockKeyCode), true).emitted == Some(true)
    ensures Feed(Some(true), [(KeyDown(CapsLockKeyCode), true), (KeyDown(CapsLockKeyCode), true)]).emitted
            == [true, true]
  {
    var evs := [(KeyDown(CapsLockKeyCode), true), (KeyDown(CapsLockKeyCode), true)];
    assert evs[1..][1..] == [];
    assert Feed(Some(true), evs[1..][1..]) == Fed(Some(true), []);
    assert Feed(Some(true), evs[1..]) == Fed(Some(true), [true]);
  }

  /** One physical press that produces a Caps Lock key-down and then the
      matching flags change notifies once: the key-down records the state,
      so the flags change is deduplicated against it. */
  lemma PressNotifiesOnce(last: Option<bool>, flags: bv64)
    ensures Feed(last, [(KeyDown(CapsLockKeyCode), CapsBit(flags)), (FlagsChanged(flags), CapsBit(flags))]).emitted
            == [CapsBit(flags)]
  {
    var b := CapsBit(flags);
    var evs := [(KeyDown(CapsLockKeyCode), b), (FlagsChanged(flags), b)];
    assert evs[1..][1..] == [];
    assert Feed(Some(b), evs[1..][1..]) == Fed(Some(b), []);
    assert Feed(Some(b), evs[1..]) == Fed(Some(b), []);
  }

  // ---------------------------------------------------------------------
  // Lifecycle: start, stop, permission polling, tap installation
  // ---------------------------------------------------------------------

  datatype EventTap = EventTap(enabled: bool)

  /** The monitor's fields. Poll timers are named by id: `pollTimers` holds
      every repeating timer still scheduled on the run loop, while
      `permissionCheckTimer` is the one the monitor holds a reference to
      (and so can invalidate). */
  datatype Monitor = Monitor(
    eventTap: Option<EventTap>,
    runLoopSource: bool,
    lastCapsOn: Option<bool>,
    permissionCheckTimer: Option<nat>,
    pollTimers: set<nat>,
    nextTimerId: nat,
    hasShownPermissionAlert: bool)

  /** A newly constructed monitor. */
  const Initial: Monitor := Monitor(None, false, None, None, {}, 0, false)

  /** What the OS calls made while installing a tap return. */
  datatype InstallResult = InstallResult(tapCreated: bool, sourceCreated: bool, sysCaps: bool)

  /** Externally visible effects of a transition. */
  datatype Effect =
    | Emit(isCapsOn: bool)        // `onChange` called
    | PromptForTrust              // `AXIsProcessTrustedWithOptions` with the prompt option
    | ShowPermissionAlert         // the modal alert pointing at System Settings

  datatype Outcome = Outcome(monitor: Monitor, effects: seq<Effect>)

  /** The tap delivers events: it exists, is enabled, and its run-loop
      source is attached to the main run loop. */
  predicate Listening(m: Monitor) {
    m.eventTap.Some? && m.eventTap.value.enabled && m.runLoopSource
  }

  function StopPermissionMonitoring(m: Monitor): (r: Monitor)
    ensures r.permissionCheckTimer.None?
    ensures m.permissionCheckTimer.Some? ==> r.pollTimers == m.pollTimers - {m.permissionCheckTimer.value}
    ensures m.permissionCheckTimer.None? ==> r == m
    ensures r.eventTap == m.eventTap && r.runLoopSource == m.runLoopSource && r.lastCapsOn == m.lastCapsOn
    ensures r.hasShownPermissionAlert == m.hasShownPermissionAlert && r.nextTimerId == m.nextTimerId
  {
    match m.permissionCheckTimer
    case None => m
    case Some(t) => m.(permissionCheckTimer := None, pollTimers := m.pollTimers - {t})
  }

  /** Schedules a new repeating poll timer and keeps a reference to it. A
      timer referenced before is not invalidated. */
  function StartPermissionMonitoring(m: Monitor): (r: Monitor)
    ensures r.permissionCheckTimer == Some(m.nextTimerId)
    ensures r.pollTimers == m.pollTimers + {m.nextTimerId}
    ensures r.nextTimerId > m.nextTimerId
    ensures r.eventTap == m.eventTap && r.runLoopSource == m.runLoopSource && r.lastCapsOn == m.lastCapsOn
    ensures r.hasShownPermissionAlert == m.hasShownPermissionAlert
  {
    m.(permissionCheckTimer := Some(m.nextTimerId),
       pollTimers := m.pollTimers + {m.nextTimerId},
       nextTimerId := m.nextTimerId + 1)
  }

  /** Disables and drops the tap, detaches its source, and stops polling.
      `lastCapsOn` and the alert flag are kept. */
  function Stop(m: Monitor): (r: Monitor)
    ensures r.eventTap.None? && !r.runLoopSource && r.permissionCheckTimer.None?
    ensures !Listening(r)
    ensures r.lastCapsOn == m.lastCapsOn
    ensures r.hasShownPermissionAlert == m.hasShownPermissionAlert
    ensures m.permissionCheckTimer.Some? ==> r.pollTimers == m.pollTimers - {m.permissionCheckTimer.value}
    ensures m.permissionCheckTimer.None? ==> r.pollTimers == m.pollTimers
    // Safe when nothing is installed: then it changes nothing.
    ensures m.eventTap.None? && !m.runLoopSource && m.permissionCheckTimer.None? ==> r == m
  {
    StopPermissionMonitoring(m.(runLoopSource := false, eventTap := None))
  }

  /** `stop()` twice is `stop()` once. */
  lemma StopIdempotent(m: Monitor)
    ensures Stop(Stop(m)) == Stop(m)
  {
  }

  /** Creates the tap; when its run-loop source can be created too, attaches
      the source, enables the tap and seeds `lastCapsOn` with the current
      system state without notifying. */
  function InstallEventTap(m: Monitor, install: InstallResult): (r: Monitor)
    ensures !install.tapCreated ==> r == m
    ensures install.tapCreated ==> r.eventTap.Some?
    ensures install.tapCreated && install.sourceCreated ==>
              Listening(r) && r.lastCapsOn == Some(install.sysCaps)
    ensures install.tapCreated && !install.sourceCreated ==>
              r.runLoopSource == m.runLoopSource && r.lastCapsOn == m.lastCapsOn && !Listening(r)
    ensures r.permissionCheckTimer == m.permissionCheckTimer && r.pollTimers == m.pollTimers
    ensures r.hasShownPermissionAlert == m.hasShownPermissionAlert && r.nextTimerId == m.nextTimerId
  {
    if !install.tapCreated then m
    else if !install.sourceCreated then m.(eventTap := Some(EventTap(false)))
    else m.(eventTap := Some(EventTap(true)), runLoopSource := true, lastCapsOn := Some(install.sysCaps))
  }

  /** Trusted: install the tap and stop polling. Not trusted: prompt, start
      polling, and show the alert if it has never been shown. */
  function CheckAndRequestPermissions(m: Monitor, trusted: bool, install: InstallResult): (r: Outcome)
    ensures trusted ==> r.effects == [] && r.monitor.permissionCheckTimer.None?
    ensures trusted ==> r.monitor == StopPermissionMonitoring(InstallEventTap(m, install))
    ensures !trusted ==> r.monitor.permissionCheckTimer == Some(m.nextTimerId)
    ensures !trusted ==> r.monitor.pollTimers == m.pollTimers + {m.nextTimerId}
    ensures !trusted ==> r.monitor.eventTap == m.eventTap && r.monitor.lastCapsOn == m.lastCapsOn
    ensures !trusted ==> r.monitor.nextTimerId > m.nextTimerId
    ensures !trusted ==> |r.effects| > 0 && r.effects[0] == PromptForTrust
    ensures !trusted ==> r.effects == if m.hasShownPermissionAlert then [PromptForTrust] else [PromptForTrust, ShowPermissionAlert]
    ensures ShowPermissionAlert in r.effects <==> !trusted && !m.hasShownPermissionAlert
    ensures r.monitor.hasShownPermissionAlert <==> m.hasShownPermissionAlert || !trusted
    ensures forall b :: Emit(b) !in r.effects
  {
    if trusted then
      Outcome(StopPermissionMonitoring(InstallEventTap(m, install)), [])
    else
      var polling := StartPermissionMonitoring(m);
      if !m.hasShownPermissionAlert then
        Outcome(polling.(hasShownPermissionAlert := true), [PromptForTrust, ShowPermissionAlert])
      else
        Outcome(polling, [PromptForTrust])
  }

  /** `start()`: always `stop()` first, then the permission check. */
  function Start(m: Monitor, trusted: bool, install: InstallResult): (r: Outcome)
    ensures r == CheckAndRequestPermissions(Stop(m), trusted, install)
    ensures r.monitor.permissionCheckTimer.Some? <==> !trusted
    ensures |r.monitor.pollTimers| <= |m.pollTimers| + 1
    ensures trusted ==> r.effects == [] && (r.monitor.eventTap.Some? <==> install.tapCreated)
    ensures trusted && install.tapCreated && install.sourceCreated ==>
              Listening(r.monitor) && r.monitor.lastCapsOn == Some(install.sysCaps)
    ensures !trusted ==> r.monitor.eventTap.None? && !r.monitor.runLoopSource
    ensures !trusted ==> |r.effects| > 0 && r.effects[0] == PromptForTrust
    ensures ShowPermissionAlert in r.effects <==> !trusted && !m.hasShownPermissionAlert
    ensures r.monitor.hasShownPermissionAlert <==> m.hasShownPermissionAlert || !trusted
    ensures forall b :: Emit(b) !in r.effects
  {
    var stopped := Stop(m);
    assert |stopped.pollTimers| <= |m.pollTimers|;
    CheckAndRequestPermissions(stopped, trusted, install)
  }

  /** One tick of the permission poll timer. */
  function PollTick(m: Monitor, trusted: bool, install: InstallResult): (r: Monitor)
    ensures !trusted ==> r == m
    ensures trusted ==> r.permissionCheckTimer.None?
    ensures trusted ==> r == StopPermissionMonitoring(InstallEventTap(m, install))
    // The referenced poll timer is unscheduled, not only forgotten.
    ensures trusted && m.permissionCheckTimer.Some? ==> r.pollTimers == m.pollTimers - {m.permissionCheckTimer.value}
    ensures trusted && m.permissionCheckTimer.None? ==> r.pollTimers == m.pollTimers
    ensures trusted && install.tapCreated && install.sourceCreated ==>
              Listening(r) && r.lastCapsOn == Some(install.sysCaps)
    ensures r.hasShownPermissionAlert == m.hasShownPermissionAlert
  {
    if trusted then StopPermissionMonitoring(InstallEventTap(m, install)) else m
  }

  /** The block the callback schedules on the main queue after a disable:
      re-enable the tap the monitor holds at the time it runs, if any. */
  function ReenableTap(m: Monitor): (r: Monitor)
    ensures m.eventTap.None? ==> r == m
    ensures m.eventTap.Some? ==> r.eventTap == Some(EventTap(true))
    ensures r.runLoopSource == m.runLoopSource && r.lastCapsOn == m.lastCapsOn
    ensures r.permissionCheckTimer == m.permissionCheckTimer && r.pollTimers == m.pollTimers
    ensures r.hasShownPermissionAlert == m.hasShownPermissionAlert
  {
    if m.eventTap.Some? then m.(eventTap := Some(EventTap(true))) else m
  }

  // ---------------------------------------------------------------------
  // The monitor in its environment
  // ---------------------------------------------------------------------

  /** The monitor plus the re-enable blocks queued on the main queue. */
  datatype System = System(monitor: Monitor, queuedReenables: nat)

  /** What can happen next. The OS delivers tap events only while the tap is
      listening, fires only scheduled poll timers, and runs only queued
      blocks; an input that cannot happen changes nothing. */
  datatype Input =
    | DoStart(trusted: bool, install: InstallResult)
    | DoStop
    | PollTimerFires(timer: nat, trusted: bool, install: InstallResult)
    | Deliver(event: TapEvent, sysCaps: bool)
    | ReenableRuns

  datatype Stepped = Stepped(system: System, effects: seq<Effect>)

  function Step(s: System, i: Input): Stepped {
    match i
    case DoStart(trusted, install) =>
      var o := Start(s.monitor, trusted, install);
      Stepped(s.(monitor := o.monitor), o.effects)
    case DoStop =>
      Stepped(s.(monitor := Stop(s.monitor)), [])
    case PollTimerFires(t, trusted, install) =>
      if t in s.monitor.pollTimers then Stepped(s.(monitor := PollTick(s.monitor, trusted, install)), [])
      else Stepped(s, [])
    case Deliver(e, sysCaps) =>
      if !Listening(s.monitor) then Stepped(s, [])
      else
        // The OS has already switched the tap off when it reports a disable.
        var m := if IsTapDisabled(e) then s.monitor.(eventTap := Some(EventTap(false))) else s.monitor;
        var r := Callback(m.lastCapsOn, e, sysCaps);
        Stepped(System(m.(lastCapsOn := r.lastCapsOn), s.queuedReenables + (if r.reenable then 1 else 0)),
                if r.emitted.Some? then [Emit(r.emitted.value)] else [])
    case ReenableRuns =>
      if s.queuedReenables == 0 then Stepped(s, [])
      else Stepped(System(ReenableTap(s.monitor), s.queuedReenables - 1), [])
  }

  function Run(s: System, inputs: seq<Input>): Stepped
    decreases |inputs|
  {
    if |inputs| == 0 then Stepped(s, [])
    else
      var first := Step(s, inputs[0]);
      var rest := Run(first.system, inputs[1..]);
      Stepped(rest.system, first.effects + rest.effects)
  }

  /** The invariant every reachable monitor keeps. */
  ghost predicate Valid(m: Monitor) {
    // The only scheduled poll timer is the referenced one: none is leaked.
    && m.pollTimers == (if m.permissionCheckTimer.Some? then {m.permissionCheckTimer.value} else {})
    // Polling and an installed tap exclude each other.
    && (m.permissionCheckTimer.Some? ==> m.eventTap.None?)
    && (m.runLoopSource ==> m.eventTap.Some?)
    // Once the tap delivers events, the last state has been seeded.
    && (m.eventTap.Some? && m.runLoopSource ==> m.lastCapsOn.Some?)
  }

  lemma InitialValid()
    ensures Valid(Initial)
  {
  }

  lemma StepPreservesValid(s: System, i: Input)
    requires Valid(s.monitor)
    ensures Valid(Step(s, i).system.monitor)
  {
  }

  /** Every monitor reachable from a valid one is valid: in particular at
      most one poll timer is ever scheduled, and never together with a tap. */
  lemma {:induction false} RunPreservesValid(s: System, inputs: seq<Input>)
    requires Valid(s.monitor)
    ensures Valid(Run(s, inputs).system.monitor)
    ensures |Run(s, inputs).system.monitor.pollTimers| <= 1
    decreases |inputs|
  {
    if |inputs| > 0 {
      StepPreservesValid(s, inputs[0]);
      RunPreservesValid(Step(s, inputs[0]).system, inputs[1..]);
    }
  }

  /** Without the `stop()` that `start()` begins with, a second permission
      check while untrusted would leave two repeating poll timers scheduled. */
  lemma StopFirstPreventsTimerLeak(install: InstallResult)
    ensures var once := CheckAndRequestPermissions(Initial, false, install).monitor;
            |CheckAndRequestPermissions(once, false, install).monitor.pollTimers| == 2
    ensures var once := Start(Initial, false, install).monitor;
            |Start(once, false, install).monitor.pollTimers| == 1
  {
  }

  function AlertCount(effects: seq<Effect>): nat
    decreases |effects|
  {
    if |effects| == 0 then 0
    else (if effects[0] == ShowPermissionAlert then 1 else 0) + AlertCount(effects[1..])
  }

  lemma {:induction false} AlertCountAppend(a: seq<Effect>, b: seq<Effect>)
    ensures AlertCount(a + b) == AlertCount(a) + AlertCount(b)
    decreases |a|
  {
    if |a| > 0 {
      assert (a + b)[0] == a[0];
      assert (a + b)[1..] == a[1..] + b;
      AlertCountAppend(a[1..], b);
    } else {
      assert a + b == b;
    }
  }

  lemma StepAlerts(s: System, i: Input)
    ensures AlertCount(Step(s, i).effects) <= (if s.monitor.hasShownPermissionAlert then 0 else 1)
    ensures s.monitor.hasShownPermissionAlert ==> Step(s, i).system.monitor.hasShownPermissionAlert
    ensures AlertCount(Step(s, i).effects) == 1 ==> Step(s, i).system.monitor.hasShownPermissionAlert
  {
  }

  /** The permission alert is shown at most once per monitor, over any run. */
  lemma {:induction false} AlertAtMostOnce(s: System, inputs: seq<Input>)
    ensures AlertCount(Run(s, inputs).effects) <= (if s.monitor.hasShownPermissionAlert then 0 else 1)
    decreases |inputs|
  {
    if |inputs| > 0 {
      var first := Step(s, inputs[0]);
      StepAlerts(s, inputs[0]);
      AlertAtMostOnce(first.system, inputs[1..]);
      AlertCountAppend(first.effects, Run(first.system, inputs[1..]).effects);
    }
  }

  /** A disable notification changes nothing but the tap's enabled flag and
      the queue; once the queued re-enable runs, the tap listens again. */
  lemma TapDisableRecovers(s: System, e: TapEvent, sysCaps: bool)
    requires Listening(s.monitor) && IsTapDisabled(e)
    ensures var d := Step(s, Deliver(e, sysCaps));
            && d.effects == []
            && d.system.monitor.lastCapsOn == s.monitor.lastCapsOn
            && d.system.queuedReenables == s.queuedReenables + 1
            && !Listening(d.system.monitor)
            && Listening(Step(d.system, ReenableRuns).system.monitor)
  {
  }

  /** A re-enable that runs after `stop()` finds no tap and does nothing. */
  lemma ReenableAfterStopIsHarmless(s: System)
    requires s.queuedReenables > 0
    ensures var stopped := Step(s, DoStop).system;
            Step(stopped, ReenableRuns).system.monitor == stopped.monitor
  {
  }

  /** After `stop()` no event reaches the callback. */
  lemma StoppedMonitorIgnoresEvents(s: System, e: TapEvent, sysCaps: bool)
    ensures var stopped := Step(s, DoStop).system;
            Step(stopped, Deliver(e, sysCaps)) == Stepped(stopped, [])
  {
  }

  /** A poll tick that finds the process trusted installs the tap and ends
      polling for good; one that does not leaves everything as it was. */
  lemma PollUntilTrusted(s: System, t: nat, install: InstallResult)
    requires Valid(s.monitor) && s.monitor.permissionCheckTimer == Some(t)
    ensures Step(s, PollTimerFires(t, false, install)).system == s
    ensures var r := Step(s, PollTimerFires(t, true, install)).system.monitor;
            && r.permissionCheckTimer.None? && r.pollTimers == {}
            && (install.tapCreated ==> r.eventTap.Some?)
            && (install.tapCreated && install.sourceCreated ==> Listening(r) && r.lastCapsOn == Some(install.sysCaps))
  {
  }
}
