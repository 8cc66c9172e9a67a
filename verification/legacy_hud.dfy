/** The older variant kept in `AppDelegate.swift`: the app delegate
    deduplicates flag changes against a plain `Bool`, and its HUD controller
    tears the panel down and builds a new one on every show, holds it longer
    for "on" than for "off", and on fade-out completion orders out the
    captured panel and forgets whatever panel it holds, without re-checking.

    Panels and timers are named by ids. `onScreen` is the set of panels
    ordered in, whether or not the controller still references them;
    `liveTimers` the one-shot timers still scheduled; `fading` the panels
    whose fade-out completion is still to run. */
module LegacyHUD {
  import opened Wrappers

  /** `NSEvent.ModifierFlags.capsLock`. */
  const CapsLockMask: bv64 := 0x0001_0000

  /** How long the panel stays up: longer when Caps Lock turns on. */
  function HoldDelay(isCapsOn: bool): (d: real)
    ensures d >= 0.8
    ensures isCapsOn <==> d > 0.8
    ensures isCapsOn ==> d == 1.5
  {
    if isCapsOn then 1.5 else 0.8
  }

  datatype LegacyPanel = LegacyPanel(id: nat, isCapsOn: bool, hasContent: bool)
  datatype LegacyTimer = LegacyTimer(id: nat, delay: real)

  datatype Legacy = Legacy(
    hudWindow: Option<LegacyPanel>,
    hudTimer: Option<LegacyTimer>,
    onScreen: set<nat>,
    liveTimers: set<nat>,
    fading: set<nat>,
    nextPanel: nat,
    nextTimer: nat)

  const Initial: Legacy := Legacy(None, None, {}, {}, {}, 0, 0)

  /** Invalidates the referenced timer, if any, and drops the reference. */
  function InvalidateTimer(l: Legacy): (r: Legacy)
    ensures r.hudTimer.None?
    ensures l.hudTimer.Some? ==> r.liveTimers == l.liveTimers - {l.hudTimer.value.id}
    ensures l.hudTimer.None? ==> r.liveTimers == l.liveTimers
    ensures r.hudWindow == l.hudWindow && r.onScreen == l.onScreen && r.fading == l.fading
    ensures r.nextPanel == l.nextPanel && r.nextTimer == l.nextTimer
  {
    match l.hudTimer
    case None => l
    case Some(t) => l.(hudTimer := None, liveTimers := l.liveTimers - {t.id})
  }

  /** The panels on screen once the current one is ordered out. */
  function OnScreenWithoutCurrent(l: Legacy): set<nat> {
    if l.hudWindow.Some? then l.onScreen - {l.hudWindow.value.id} else l.onScreen
  }

  /** The scheduled timers once the current one is invalidated. */
  function LiveWithoutCurrent(l: Legacy): set<nat> {
    if l.hudTimer.Some? then l.liveTimers - {l.hudTimer.value.id} else l.liveTimers
  }

  lemma SubsetOfSingleton(s: set<nat>, x: nat)
    requires s <= {x}
    ensures |s| <= 1
  {
    if x in s {
      assert s == {x};
    } else {
      assert s == {};
    }
  }

  /** Orders out and forgets the current panel, invalidates the timer, then
      (given a main screen) builds a new panel, orders it in and schedules
      a hide after the hold delay. */
  function ShowHUD(l: Legacy, isCapsOn: bool, hasMainScreen: bool): (r: Legacy)
    ensures !hasMainScreen ==>
              && r.hudWindow.None? && r.hudTimer.None?
              && r.onScreen == OnScreenWithoutCurrent(l) && r.liveTimers == LiveWithoutCurrent(l)
    ensures hasMainScreen ==>
              && r.hudWindow == Some(LegacyPanel(l.nextPanel, isCapsOn, true))
              && r.hudTimer == Some(LegacyTimer(l.nextTimer, HoldDelay(isCapsOn)))
              && r.onScreen == OnScreenWithoutCurrent(l) + {l.nextPanel}
              && r.liveTimers == LiveWithoutCurrent(l) + {l.nextTimer}
    ensures r.fading == l.fading
    // Every new panel and timer gets a fresh id.
    ensures hasMainScreen ==> r.nextPanel == l.nextPanel + 1 && r.nextTimer == l.nextTimer + 1
    ensures !hasMainScreen ==> r.nextPanel == l.nextPanel && r.nextTimer == l.nextTimer
  {
    var dropped := match l.hudWindow
      case None => l
      case Some(p) => l.(onScreen := l.onScreen - {p.id}, hudWindow := None);
    var cleared := InvalidateTimer(dropped);
    if !hasMainScreen then cleared
    else
      var panel := LegacyPanel(cleared.nextPanel, isCapsOn, true);
      var timer := LegacyTimer(cleared.nextTimer, HoldDelay(isCapsOn));
      cleared.(hudWindow := Some(panel), onScreen := cleared.onScreen + {panel.id}, nextPanel := panel.id + 1,
               hudTimer := Some(timer), liveTimers := cleared.liveTimers + {timer.id}, nextTimer := timer.id + 1)
  }

  /** A no-op without a panel; otherwise invalidates the timer and fades the
      content out, or removes the panel at once if it has no content view. */
  function HideHUD(l: Legacy): (r: Legacy)
    ensures l.hudWindow.None? ==> r == l
    ensures l.hudWindow.Some? ==> r.hudTimer.None? && r.liveTimers == LiveWithoutCurrent(l)
    ensures r.nextPanel == l.nextPanel && r.nextTimer == l.nextTimer
    ensures l.hudWindow.Some? && l.hudWindow.value.hasContent ==>
              r.hudWindow == l.hudWindow && r.onScreen == l.onScreen && r.fading == l.fading + {l.hudWindow.value.id}
    ensures l.hudWindow.Some? && !l.hudWindow.value.hasContent ==>
              r.hudWindow.None? && r.onScreen == l.onScreen - {l.hudWindow.value.id} && r.fading == l.fading
  {
    match l.hudWindow
    case None => l
    case Some(p) =>
      var cleared := InvalidateTimer(l);
      if p.hasContent then cleared.(fading := cleared.fading + {p.id})
      else cleared.(onScreen := cleared.onScreen - {p.id}, hudWindow := None)
  }

  /** A scheduled timer fires: it is spent, and it calls `hideHUD`. */
  function TimerFires(l: Legacy, id: nat): (r: Legacy)
    requires id in l.liveTimers
    ensures id !in r.liveTimers
    ensures l.hudWindow.None? ==> r == l.(liveTimers := l.liveTimers - {id})
    // With a panel held, the timer's `hideHUD` unschedules the current timer
    // too, and fades the panel out or, without content, removes it at once.
    ensures l.hudWindow.Some? ==> r.hudTimer.None? && r.liveTimers == LiveWithoutCurrent(l) - {id}
    ensures l.hudWindow.Some? && l.hudWindow.value.hasContent ==>
              r.hudWindow == l.hudWindow && r.onScreen == l.onScreen && r.fading == l.fading + {l.hudWindow.value.id}
    ensures l.hudWindow.Some? && !l.hudWindow.value.hasContent ==>
              r.hudWindow.None? && r.onScreen == l.onScreen - {l.hudWindow.value.id} && r.fading == l.fading
    ensures r.nextPanel == l.nextPanel && r.nextTimer == l.nextTimer
  {
    HideHUD(l.(liveTimers := l.liveTimers - {id}))
  }

  /** The fade-out completion as written: orders out the panel it captured
      and forgets the current panel, whichever it is. */
  function FadeDone(l: Legacy, captured: nat): (r: Legacy)
    requires captured in l.fading
    ensures r.hudWindow.None?
    ensures r.onScreen == l.onScreen - {captured}
    ensures r.fading == l.fading - {captured}
    ensures r.hudTimer == l.hudTimer && r.liveTimers == l.liveTimers
    ensures r.nextPanel == l.nextPanel && r.nextTimer == l.nextTimer
  {
    l.(onScreen := l.onScreen - {captured}, hudWindow := None, fading := l.fading - {captured})
  }

  /** The completion as evidently intended: it forgets the current panel
      only if that is still the panel whose fade has finished. */
  function FadeDoneFixed(l: Legacy, captured: nat): (r: Legacy)
    requires captured in l.fading
    ensures r.onScreen == l.onScreen - {captured}
    ensures r.fading == l.fading - {captured}
    ensures l.hudWindow.Some? && l.hudWindow.value.id == captured ==> r.hudWindow.None?
    ensures !(l.hudWindow.Some? && l.hudWindow.value.id == captured) ==> r.hudWindow == l.hudWindow
    ensures r.hudTimer == l.hudTimer && r.liveTimers == l.liveTimers
    ensures r.nextPanel == l.nextPanel && r.nextTimer == l.nextTimer
  {
    var forget := l.hudWindow.Some? && l.hudWindow.value.id == captured;
    l.(onScreen := l.onScreen - {captured}, hudWindow := if forget then None else l.hudWindow,
       fading := l.fading - {captured})
  }

  datatype Event =
    | Show(isCapsOn: bool, hasMainScreen: bool)
    | TimerFire(id: nat)
    | FadeCompletes(panel: nat)

  /** One event, with the completion as written (`fixed` false) or as
      intended (`fixed` true). Timers that are not scheduled do not fire and
      completions that are not pending do not run. */
  function Step(l: Legacy, e: Event, fixed: bool): Legacy {
    match e
    case Show(b, screen) => ShowHUD(l, b, screen)
    case TimerFire(id) => if id in l.liveTimers then TimerFires(l, id) else l
    case FadeCompletes(p) =>
      if p !in l.fading then l else if fixed then FadeDoneFixed(l, p) else FadeDone(l, p)
  }

  function Run(l: Legacy, events: seq<Event>, fixed: bool): Legacy
    decreases |events|
  {
    if |events| == 0 then l else Run(Step(l, events[0], fixed), events[1..], fixed)
  }

  /** Ids come from counters and a referenced timer is the only live one. */
  ghost predicate TimersWf(l: Legacy) {
    && (forall t :: t in l.liveTimers ==> t < l.nextTimer)
    && l.liveTimers <= (if l.hudTimer.Some? then {l.hudTimer.value.id} else {})
    && (l.hudTimer.Some? ==> l.hudTimer.value.id < l.nextTimer)
  }

  lemma StepKeepsTimersWf(l: Legacy, e: Event, fixed: bool)
    requires TimersWf(l)
    ensures TimersWf(Step(l, e, fixed))
  {
  }

  /** Even as written, at most one timer is ever scheduled. */
  lemma {:induction false} AtMostOneTimer(l: Legacy, events: seq<Event>, fixed: bool)
    requires TimersWf(l)
    ensures TimersWf(Run(l, events, fixed))
    ensures |Run(l, events, fixed).liveTimers| <= 1
    decreases |events|
  {
    if |events| > 0 {
      StepKeepsTimersWf(l, events[0], fixed);
      AtMostOneTimer(Step(l, events[0], fixed), events[1..], fixed);
    } else {
      var r := Run(l, events, fixed);
      if r.hudTimer.Some? {
        SubsetOfSingleton(r.liveTimers, r.hudTimer.value.id);
      }
    }
  }

  /** The panel invariant the intended completion keeps: every panel on
      screen is the one the controller holds. */
  ghost predicate PanelsWf(l: Legacy) {
    && (forall p :: p in l.onScreen ==> l.hudWindow.Some? && l.hudWindow.value.id == p)
    && (forall p :: p in l.onScreen ==> p < l.nextPanel)
    && (forall p :: p in l.fading ==> p < l.nextPanel)
    && (l.hudWindow.Some? ==> l.hudWindow.value.id < l.nextPanel)
  }

  lemma FixedStepKeepsPanelsWf(l: Legacy, e: Event)
    requires PanelsWf(l)
    ensures PanelsWf(Step(l, e, true))
  {
  }

  /** With the intended completion no panel is ever orphaned, so at most one
      panel is on screen, over any sequence of events. */
  lemma {:induction false} FixedAtMostOnePanelOnScreen(l: Legacy, events: seq<Event>)
    requires PanelsWf(l)
    ensures PanelsWf(Run(l, events, true))
    ensures |Run(l, events, true).onScreen| <= 1
    decreases |events|
  {
    if |events| > 0 {
      FixedStepKeepsPanelsWf(l, events[0]);
      FixedAtMostOnePanelOnScreen(Step(l, events[0], true), events[1..]);
    } else {
      var r := Run(l, events, true);
      if r.hudWindow.Some? {
        SubsetOfSingleton(r.onScreen, r.hudWindow.value.id);
      } else {
        assert r.onScreen == {};
      }
    }
  }

  /** The stale-completion race as written: a show during the fade-out, then
      the old fade's completion, leaves the new panel on screen with nothing
      referencing it; its own hide then does nothing, and the next show puts
      a second panel on screen beside it. */
  lemma StaleCompletionOrphansPanel()
    ensures var l := Run(Initial, [Show(true, true), TimerFire(0), Show(false, true), FadeCompletes(0)], false);
            && l.hudWindow.None? && l.onScreen == {1}
    ensures Run(Initial, [Show(true, true), TimerFire(0), Show(false, true), FadeCompletes(0), TimerFire(1)], false).onScreen
            == {1}
    ensures Run(Initial, [Show(true, true), TimerFire(0), Show(false, true), FadeCompletes(0), TimerFire(1), Show(true, true)], false).onScreen
            == {1, 2}
  {
  }

  // ---------------------------------------------------------------------
  // The app delegate's flag-change handler
  // ---------------------------------------------------------------------

  datatype App = App(hud: Legacy, previousCapsState: bool)

  const Launched: App := App(Initial, false)

  /** Whether bit 16 of the flags word, Caps Lock's, is set. */
  function CapsLockOn(flags: bv64): (r: bool)
    ensures r <==> (flags >> 16) & 1 == 1
  {
    flags & CapsLockMask != 0
  }

  /** Shows the HUD exactly when the Caps Lock bit differs from the previous
      state, and records the bit. */
  function FlagsChanged(app: App, flags: bv64, hasMainScreen: bool): (r: App)
    ensures r.previousCapsState == CapsLockOn(flags)
    ensures CapsLockOn(flags) != app.previousCapsState ==> r.hud == ShowHUD(app.hud, CapsLockOn(flags), hasMainScreen)
    ensures CapsLockOn(flags) == app.previousCapsState ==> r.hud == app.hud
  {
    var current := CapsLockOn(flags);
    if current != app.previousCapsState then App(ShowHUD(app.hud, current, hasMainScreen), current)
    else app
  }

  /** Right after launch a flags change with Caps Lock off shows nothing. */
  lemma LaunchIgnoresCapsOff(flags: bv64, hasMainScreen: bool)
    requires !CapsLockOn(flags)
    ensures FlagsChanged(Launched, flags, hasMainScreen) == Launched
    ensures FlagsChanged(Launched, flags, hasMainScreen).hud.onScreen == {}
  {
  }

  datatype AppFed = AppFed(app: App, shown: seq<bool>)

  /** Feeds (flags, main screen present) pairs to the handler, collecting
      the states passed to `showHUD`. */
  function FeedApp(app: App, events: seq<(bv64, bool)>): AppFed
    decreases |events|
  {
    if |events| == 0 then AppFed(app, [])
    else
      var next := FlagsChanged(app, events[0].0, events[0].1);
      var rest := FeedApp(next, events[1..]);
      var shownNow := if CapsLockOn(events[0].0) != app.previousCapsState then [CapsLockOn(events[0].0)] else [];
      AppFed(rest.app, shownNow + rest.shown)
  }
}
