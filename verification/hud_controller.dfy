/** The presentation state machine: one lazily created panel, one hosting
    view whose content is replaced in place, a cancel-and-replace hide work
    item, and a fade-out whose completion orders the panel out only if its
    opacity is still zero.

    Work items are named by a generation counter: arming a hide takes the
    next number, and a dispatched item acts only if it is still the one the
    controller holds (the others were cancelled). Opacity is the target the
    last animation was given (0 or 1), not the value on screen mid-flight. */
module HUDController {
  import opened Wrappers
  import opened HUDGeometry

  /** `HUDTiming.maxVisibleAfterEvent`, in seconds. */
  const MaxVisibleAfterEvent: real := 0.8

  /** The SwiftUI hosting view showing "Caps Lock On/Off". */
  datatype HostingView = HostingView(isCapsOn: bool, frame: Rect)

  /** The panel: its frame, whether it is ordered in, its opacity target,
      and the hosting views among its content view's subviews. */
  datatype Panel = Panel(frame: Rect, onScreen: bool, alpha: real, hosting: seq<HostingView>)

  /** A hide work item handed to `asyncAfter`, with its deadline. */
  datatype WorkItem = WorkItem(id: nat, deadline: real)

  /** The controller's fields, plus two counters kept for the proofs: the
      panels ever created and the fade-out completions still to run. */
  datatype Controller = Controller(
    hudWindow: Option<Panel>,
    hideWorkItem: Option<WorkItem>,
    nextWorkItem: nat,
    panelsCreated: nat,
    fadesPending: nat)

  const Unbuilt: Controller := Controller(None, None, 0, 0, 0)

  /** Returns the existing panel, or creates one: transparent, ordered out,
      without content, framed for the primary screen. */
  function MakeWindowIfNeeded(c: Controller, screens: seq<Rect>): (r: (Controller, Panel))
    ensures r.0.hudWindow == Some(r.1)
    ensures c.hudWindow.Some? ==> r.0 == c && r.1 == c.hudWindow.value
    ensures c.hudWindow.None? ==>
              && r.1 == Panel(WindowFrame(PrimaryScreen(screens)), false, 0.0, [])
              && r.0.panelsCreated == c.panelsCreated + 1
              && r.0.hideWorkItem == c.hideWorkItem && r.0.nextWorkItem == c.nextWorkItem
              && r.0.fadesPending == c.fadesPending
  {
    match c.hudWindow
    case Some(panel) => (c, panel)
    case None =>
      var panel := Panel(WindowFrame(PrimaryScreen(screens)), false, 0.0, []);
      (c.(hudWindow := Some(panel), panelsCreated := c.panelsCreated + 1), panel)
  }

  /** `init()` builds the panel straight away. */
  function Init(screens: seq<Rect>): (r: Controller)
    ensures r.hudWindow.Some? && r.panelsCreated == 1
    ensures !r.hudWindow.value.onScreen && r.hudWindow.value.alpha == 0.0 && r.hudWindow.value.hosting == []
    ensures r.hideWorkItem.None?
  {
    MakeWindowIfNeeded(Unbuilt, screens).0
  }

  /** Shows `isCapsOn` in the first hosting view, or adds one if there is
      none; other subviews are left as they are. */
  function Refresh(hosting: seq<HostingView>, view: HostingView): (r: seq<HostingView>)
    ensures |r| == if |hosting| == 0 then 1 else |hosting|
    ensures r[0] == view
    ensures r[1..] == if |hosting| == 0 then [] else hosting[1..]
  {
    if |hosting| == 0 then [view] else hosting[0 := view]
  }

  /** Arms a new hide `MaxVisibleAfterEvent` after `now`; the item held
      before, if any, is cancelled by being replaced. */
  function RestartHideTimer(c: Controller, now: real): (r: Controller)
    ensures r.hideWorkItem == Some(WorkItem(c.nextWorkItem, now + MaxVisibleAfterEvent))
    ensures c.hideWorkItem.Some? && c.hideWorkItem.value.id < c.nextWorkItem ==>
              r.hideWorkItem.value.id != c.hideWorkItem.value.id
    ensures r.nextWorkItem > c.nextWorkItem
    ensures r.hudWindow == c.hudWindow && r.panelsCreated == c.panelsCreated && r.fadesPending == c.fadesPending
  {
    c.(hideWorkItem := Some(WorkItem(c.nextWorkItem, now + MaxVisibleAfterEvent)), nextWorkItem := c.nextWorkItem + 1)
  }

  function ShowHUD(c: Controller, isCapsOn: bool, now: real, screens: seq<Rect>): (r: Controller)
    ensures r.hudWindow.Some?
    ensures c.hudWindow.Some? ==> r.panelsCreated == c.panelsCreated
    ensures c.hudWindow.None? ==> r.panelsCreated == c.panelsCreated + 1
    // Ordered front, fading in to full opacity, showing the new state.
    ensures var p := r.hudWindow.value;
            && p.onScreen && p.alpha == 1.0
            && p.frame == WindowFrame(PrimaryScreen(screens))
            && |p.hosting| > 0 && p.hosting[0] == HostingView(isCapsOn, PillContentFrame(PrimaryScreen(screens)))
    // The hosting view is reused: no view is added when one exists.
    ensures c.hudWindow.Some? && |c.hudWindow.value.hosting| > 0 ==>
              |r.hudWindow.value.hosting| == |c.hudWindow.value.hosting|
    ensures c.hudWindow.Some? && |c.hudWindow.value.hosting| == 0 ==> |r.hudWindow.value.hosting| == 1
    // Exactly one hide is armed, whatever the state shown.
    ensures r.hideWorkItem == Some(WorkItem(c.nextWorkItem, now + MaxVisibleAfterEvent))
    ensures r.nextWorkItem == c.nextWorkItem + 1
    ensures r.fadesPending == c.fadesPending
  {
    var (c1, panel) := MakeWindowIfNeeded(c, screens);
    var screen := PrimaryScreen(screens);
    var view := HostingView(isCapsOn, PillContentFrame(screen));
    var shown := panel.(frame := WindowFrame(screen), hosting := Refresh(panel.hosting, view),
                        onScreen := true, alpha := 1.0);
    RestartHideTimer(c1.(hudWindow := Some(shown), hideWorkItem := None), now)
  }

  /** Cancels the pending hide and starts fading the panel out; a no-op
      without a panel. */
  function HideHUD(c: Controller): (r: Controller)
    ensures c.hudWindow.None? ==> r == c
    ensures c.hudWindow.Some? ==>
              && r.hideWorkItem.None?
              && r.hudWindow == Some(c.hudWindow.value.(alpha := 0.0))
              && r.fadesPending == c.fadesPending + 1
    ensures r.nextWorkItem == c.nextWorkItem && r.panelsCreated == c.panelsCreated
  {
    match c.hudWindow
    case None => c
    case Some(panel) =>
      c.(hideWorkItem := None, hudWindow := Some(panel.(alpha := 0.0)), fadesPending := c.fadesPending + 1)
  }

  /** A dispatched hide work item reaches its deadline: it runs `hideHUD`
      only if it was not cancelled, that is, if it is still the one held. */
  function HideFires(c: Controller, id: nat): (r: Controller)
    ensures c.hideWorkItem.Some? && c.hideWorkItem.value.id == id ==> r == HideHUD(c)
    ensures !(c.hideWorkItem.Some? && c.hideWorkItem.value.id == id) ==> r == c
  {
    if c.hideWorkItem.Some? && c.hideWorkItem.value.id == id then HideHUD(c) else c
  }

  /** A fade-out completion: the panel is ordered out only if its opacity
      target is still zero, i.e. no `showHUD` happened since the fade began. */
  function FadeDone(c: Controller): (r: Controller)
    requires c.fadesPending > 0
    ensures r.fadesPending == c.fadesPending - 1
    ensures r.hudWindow.Some? <==> c.hudWindow.Some?
    ensures c.hudWindow.Some? ==>
              var p := c.hudWindow.value;
              r.hudWindow == Some(p.(onScreen := p.onScreen && p.alpha != 0.0))
    ensures r.hideWorkItem == c.hideWorkItem && r.nextWorkItem == c.nextWorkItem
    ensures r.panelsCreated == c.panelsCreated
  {
    var c1 := c.(fadesPending := c.fadesPending - 1);
    match c.hudWindow
    case None => c1
    case Some(panel) =>
      if panel.alpha == 0.0 then c1.(hudWindow := Some(panel.(onScreen := false))) else c1
  }

  // ---------------------------------------------------------------------
  // Event sequences
  // ---------------------------------------------------------------------

  datatype Event =
    | Show(isCapsOn: bool, now: real, screens: seq<Rect>)
    | HideItemFires(id: nat)
    | FadeCompletes

  /** One event; a fade completion with no fade in flight cannot happen and
      changes nothing. */
  function Step(c: Controller, e: Event): Controller {
    match e
    case Show(b, now, screens) => ShowHUD(c, b, now, screens)
    case HideItemFires(id) => HideFires(c, id)
    case FadeCompletes => if c.fadesPending > 0 then FadeDone(c) else c
  }

  function Run(c: Controller, events: seq<Event>): Controller
    decreases |events|
  {
    if |events| == 0 then c else Run(Step(c, events[0]), events[1..])
  }

  /** What is on screen: Hidden, Visible(caps) or FadingOut(caps). */
  datatype Phase = Hidden | Visible(isCapsOn: bool) | FadingOut(isCapsOn: bool)

  function PhaseOf(c: Controller): Phase {
    match c.hudWindow
    case None => Hidden
    case Some(p) =>
      if !p.onScreen || |p.hosting| == 0 then Hidden
      else if p.alpha == 1.0 then Visible(p.hosting[0].isCapsOn)
      else FadingOut(p.hosting[0].isCapsOn)
  }

  /** The invariant every controller built by `init()` keeps. */
  ghost predicate Wf(c: Controller) {
    && c.hudWindow.Some?
    && c.panelsCreated == 1
    && var p := c.hudWindow.value;
    // At most one hosting view; a panel on screen has it.
    && |p.hosting| <= 1
    && (p.onScreen ==> |p.hosting| == 1)
    && (p.alpha == 0.0 || p.alpha == 1.0)
    // Fully opaque exactly while a hide is armed, and then on screen.
    && (p.alpha == 1.0 <==> c.hideWorkItem.Some?)
    && (p.alpha == 1.0 ==> p.onScreen)
    // On screen but transparent: a completion is on its way to order it out.
    && (p.onScreen && p.alpha == 0.0 ==> c.fadesPending > 0)
    && (c.hideWorkItem.Some? ==> c.hideWorkItem.value.id < c.nextWorkItem)
  }

  lemma InitWf(screens: seq<Rect>)
    ensures Wf(Init(screens))
    ensures PhaseOf(Init(screens)) == Hidden
  {
  }

  lemma StepPreservesWf(c: Controller, e: Event)
    requires Wf(c)
    ensures Wf(Step(c, e))
  {
  }

  /** Over any sequence of events there is only ever the one panel and at
      most one hosting view; the panel is never recreated. */
  lemma {:induction false} SinglePanel(c: Controller, events: seq<Event>)
    requires Wf(c)
    ensures var r := Run(c, events);
            && Wf(r)
            && r.panelsCreated == 1
            && |r.hudWindow.value.hosting| <= 1
    decreases |events|
  {
    if |events| > 0 {
      StepPreservesWf(c, events[0]);
      SinglePanel(Step(c, events[0]), events[1..]);
    }
  }

  /** The transition table of the HUD, for well-formed controllers. */
  lemma Transitions(c: Controller, b: bool, now: real, screens: seq<Rect>, id: nat)
    requires Wf(c)
    // Any state: a show makes it visible with the new content.
    ensures PhaseOf(Step(c, Show(b, now, screens))) == Visible(b)
    // Visible: the armed hide starts the fade-out, with the same content.
    ensures PhaseOf(c).Visible? ==>
              && c.hideWorkItem.Some?
              && PhaseOf(Step(c, HideItemFires(c.hideWorkItem.value.id))) == FadingOut(PhaseOf(c).isCapsOn)
    // A hide that is not the armed one does nothing.
    ensures c.hideWorkItem.None? || c.hideWorkItem.value.id != id ==> Step(c, HideItemFires(id)) == c
    // Fading out: the completion hides it.
    ensures PhaseOf(c).FadingOut? ==> PhaseOf(Step(c, FadeCompletes)) == Hidden
    // Visible: a stale completion leaves it visible.
    ensures PhaseOf(c).Visible? ==> PhaseOf(Step(c, FadeCompletes)) == PhaseOf(c)
    // Hidden stays hidden until the next show.
    ensures PhaseOf(c) == Hidden ==> PhaseOf(Step(c, FadeCompletes)) == Hidden && PhaseOf(Step(c, HideItemFires(id))) == Hidden
  {
  }

  /** A show that lands while a fade is in flight prevents the removal: the
      completion that follows leaves the panel visible with the new state
      and a fresh hide armed. */
  lemma ShowDuringFadePreventsRemoval(c: Controller, b: bool, now: real, screens: seq<Rect>)
    requires Wf(c) && PhaseOf(c).FadingOut?
    ensures ShowHUD(c, b, now, screens).fadesPending > 0
    ensures var r := FadeDone(ShowHUD(c, b, now, screens));
            && PhaseOf(r) == Visible(b)
            && r.hudWindow.value.onScreen
            && r.hideWorkItem == Some(WorkItem(c.nextWorkItem, now + MaxVisibleAfterEvent))
  {
  }

  /** Shows in a row at the given times, on the same screens. */
  function ShowAll(c: Controller, burst: seq<(bool, real)>, screens: seq<Rect>): Controller
    decreases |burst|
  {
    if |burst| == 0 then c else ShowAll(ShowHUD(c, burst[0].0, burst[0].1, screens), burst[1..], screens)
  }

  /** After a burst of shows, the one hide that can still act is the one the
      last show armed, due `MaxVisibleAfterEvent` after it: every work item
      armed earlier in the burst, or before it, does nothing when it fires. */
  lemma {:induction false} OnlyLastHideFires(c: Controller, burst: seq<(bool, real)>, screens: seq<Rect>)
    requires Wf(c) && |burst| > 0
    ensures var r := ShowAll(c, burst, screens);
            var last := c.nextWorkItem + |burst| - 1;
            && Wf(r)
            && r.hideWorkItem == Some(WorkItem(last, burst[|burst| - 1].1 + MaxVisibleAfterEvent))
            && PhaseOf(r) == Visible(burst[|burst| - 1].0)
            && (forall id: nat :: id < last ==> HideFires(r, id) == r)
            && PhaseOf(HideFires(r, last)) == FadingOut(burst[|burst| - 1].0)
    decreases |burst|
  {
    var c1 := ShowHUD(c, burst[0].0, burst[0].1, screens);
    StepPreservesWf(c, Show(burst[0].0, burst[0].1, screens));
    if |burst| > 1 {
      OnlyLastHideFires(c1, burst[1..], screens);
      assert burst[1..][|burst[1..]| - 1] == burst[|burst| - 1];
    } else {
      assert burst[1..] == [];
      Transitions(c, burst[0].0, burst[0].1, screens, 0);
    }
  }

  /** Scenario: on at t=0, the hide fires at 0.8, off arrives mid-fade; the
      panel is never removed and ends visible showing "off", with one hide
      armed at 0.85 + 0.8. */
  lemma ReshowMidFadeScenario(screens: seq<Rect>)
    ensures var c := Run(Init(screens), [Show(true, 0.0, screens), HideItemFires(0), Show(false, 0.85, screens), FadeCompletes]);
            && PhaseOf(c) == Visible(false)
            && c.hideWorkItem == Some(WorkItem(1, 0.85 + MaxVisibleAfterEvent))
  {
    var c0 := Init(screens);
    var evs := [Show(true, 0.0, screens), HideItemFires(0), Show(false, 0.85, screens), FadeCompletes];
    var c1 := Step(c0, evs[0]);
    var c2 := Step(c1, evs[1]);
    var c3 := Step(c2, evs[2]);
    var c4 := Step(c3, evs[3]);
    assert PhaseOf(c2) == FadingOut(true);
    assert PhaseOf(c4) == Visible(false);
    assert evs[1..] == [HideItemFires(0), Show(false, 0.85, screens), FadeCompletes];
    assert evs[1..][1..] == [Show(false, 0.85, screens), FadeCompletes];
    assert evs[1..][1..][1..] == [FadeCompletes];
    assert evs[1..][1..][1..][1..] == [];
    assert Run(c0, evs) == Run(c1, evs[1..]) == Run(c2, evs[1..][1..]) == Run(c3, evs[1..][1..][1..]) == Run(c4, []);
  }
}
