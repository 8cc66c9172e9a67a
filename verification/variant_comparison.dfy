/** The two generations side by side: the app delegate's Bool dedup against
    the monitor's optional one, and the stale fade-completion race that the
    legacy controller has and the current one guards against. */
module VariantComparison {
  import opened Wrappers
  import CapsLockMonitor
  import HUDGeometry
  import HUDController
  import LegacyHUD

  /** The flags words of (flags, main screen present) pairs as tap events. */
  function AsTapEvents(events: seq<(bv64, bool)>): (r: seq<(CapsLockMonitor.TapEvent, bool)>)
    ensures |r| == |events|
    ensures forall i :: 0 <= i < |events| ==> r[i].0 == CapsLockMonitor.FlagsChanged(events[i].0)
    decreases |events|
  {
    if |events| == 0 then []
    else [(CapsLockMonitor.FlagsChanged(events[0].0), false)] + AsTapEvents(events[1..])
  }

  /** On flag changes the app delegate's handler shows exactly the states
      the monitor's flags path emits when its last state is known to be the
      delegate's previous one; the delegate's `false` start is the monitor
      seeded with Caps Lock off. */
  lemma {:induction false} LegacyDedupMatchesMonitor(app: LegacyHUD.App, events: seq<(bv64, bool)>)
    ensures LegacyHUD.FeedApp(app, events).shown
            == CapsLockMonitor.Feed(Some(app.previousCapsState), AsTapEvents(events)).emitted
    ensures Some(LegacyHUD.FeedApp(app, events).app.previousCapsState)
            == CapsLockMonitor.Feed(Some(app.previousCapsState), AsTapEvents(events)).last
    decreases |events|
  {
    if |events| > 0 {
      var next := LegacyHUD.FlagsChanged(app, events[0].0, events[0].1);
      assert AsTapEvents(events)[1..] == AsTapEvents(events[1..]);
      assert LegacyHUD.CapsLockOn(events[0].0) == CapsLockMonitor.CapsBit(events[0].0);
      LegacyDedupMatchesMonitor(next, events[1..]);
    }
  }

  /** The legacy fade-out completion orphans the panel built by a show that
      lands mid-fade, from any state where a panel with content is up and
      its timer is scheduled; the intended completion keeps it referenced,
      with its own hide still scheduled. */
  lemma {:induction false} LegacyStaleCompletionRace(l: LegacyHUD.Legacy, b: bool)
    requires LegacyHUD.PanelsWf(l) && LegacyHUD.TimersWf(l)
    requires l.hudWindow.Some? && l.hudWindow.value.hasContent
    requires l.hudTimer.Some? && l.hudTimer.value.id in l.liveTimers
    ensures var evs := [LegacyHUD.TimerFire(l.hudTimer.value.id), LegacyHUD.Show(b, true),
                        LegacyHUD.FadeCompletes(l.hudWindow.value.id)];
            var asWritten := LegacyHUD.Run(l, evs, false);
            var fixed := LegacyHUD.Run(l, evs, true);
            && asWritten.hudWindow.None? && l.nextPanel in asWritten.onScreen
            && fixed.hudWindow == Some(LegacyHUD.LegacyPanel(l.nextPanel, b, true)) && fixed.onScreen == {l.nextPanel}
            && fixed.hudTimer == Some(LegacyHUD.LegacyTimer(l.nextTimer, LegacyHUD.HoldDelay(b)))
            && fixed.liveTimers == {l.nextTimer}
  {
    var p := l.hudWindow.value.id;
    var evs := [LegacyHUD.TimerFire(l.hudTimer.value.id), LegacyHUD.Show(b, true), LegacyHUD.FadeCompletes(p)];
    assert evs[1..] == [LegacyHUD.Show(b, true), LegacyHUD.FadeCompletes(p)];
    assert evs[1..][1..] == [LegacyHUD.FadeCompletes(p)];
    assert evs[1..][1..][1..] == [];
    forall fixed: bool
      ensures LegacyHUD.Run(l, evs, fixed)
              == LegacyHUD.Step(LegacyHUD.Step(LegacyHUD.Step(l, evs[0], fixed), evs[1], fixed), evs[2], fixed)
    {
      var l1 := LegacyHUD.Step(l, evs[0], fixed);
      var l2 := LegacyHUD.Step(l1, evs[1], fixed);
      var l3 := LegacyHUD.Step(l2, evs[2], fixed);
      assert LegacyHUD.Run(l, evs, fixed) == LegacyHUD.Run(l1, evs[1..], fixed);
      assert LegacyHUD.Run(l1, evs[1..], fixed) == LegacyHUD.Run(l2, evs[1..][1..], fixed);
      assert LegacyHUD.Run(l2, evs[1..][1..], fixed) == LegacyHUD.Run(l3, [], fixed);
    }
    var l1 := LegacyHUD.Step(l, evs[0], false);
    assert p in l1.fading && l1.hudWindow == l.hudWindow;
    var l2 := LegacyHUD.Step(l1, evs[1], false);
    assert p < l.nextPanel;
    assert l2.hudWindow == Some(LegacyHUD.LegacyPanel(l.nextPanel, b, true));
    assert l2.onScreen == {l.nextPanel} by {
      assert l1.onScreen <= {p};
    }
  }

  /** The same race in the two controllers: "on", its hide firing, "off"
      mid-fade, then the old completion. The current controller ends with its
      one panel visible showing "off"; the legacy one ends with a panel on
      screen that it no longer references. */
  lemma StaleCompletionOnlyInLegacy(screens: seq<HUDGeometry.Rect>)
    ensures var c := HUDController.Run(HUDController.Init(screens),
              [HUDController.Show(true, 0.0, screens), HUDController.HideItemFires(0),
               HUDController.Show(false, 0.85, screens), HUDController.FadeCompletes]);
            HUDController.PhaseOf(c) == HUDController.Visible(false) && c.panelsCreated == 1
    ensures var l := LegacyHUD.Run(LegacyHUD.Initial,
              [LegacyHUD.Show(true, true), LegacyHUD.TimerFire(0), LegacyHUD.Show(false, true), LegacyHUD.FadeCompletes(0)],
              false);
            l.hudWindow.None? && l.onScreen == {1}
  {
    HUDController.ReshowMidFadeScenario(screens);
    HUDController.InitWf(screens);
    HUDController.SinglePanel(HUDController.Init(screens),
      [HUDController.Show(true, 0.0, screens), HUDController.HideItemFires(0),
       HUDController.Show(false, 0.85, screens), HUDController.FadeCompletes]);
    LegacyHUD.StaleCompletionOrphansPanel();
  }
}
