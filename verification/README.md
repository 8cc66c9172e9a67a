# spac Caps Lock indicator — a Dafny model of its core

spac is a macOS menu-bar app. It shows a small "Caps Lock On/Off" panel near
the top-right corner of the screen whenever Caps Lock changes, and the panel
fades out again on its own. This project models the two small state machines
that decide when the panel appears and disappears. It also models the older
variant of the same logic that is still in `AppDelegate.swift`.

- **Key-state detector** (`CapsLockMonitor`, in `caps_lock_monitor.dfy`).
  - The event-tap callback is a pure function. It takes the last known state
    (`lastCapsOn: Bool?`), an event and the system Caps Lock state. It returns
    the new last state, the value handed to `onChange` (if any), whether a
    tap re-enable is scheduled, and whether the event is passed on.
  - The lifecycle covers `start`, `stop`, the permission check, the 2-second
    poll timer, the show-the-alert-once flag and tap installation. Each of
    these is a transition on an immutable `Monitor` record.
  - A `System` wrapper adds the OS side: events reach the callback only while
    the tap listens, and re-enable blocks wait in the main queue.
- **Presentation state machine** (`HUDController`, in `hud_controller.dfy`, with
  placement arithmetic in `hud_geometry.dfy`).
  - There is one lazily built panel and one hosting view, whose content is
    replaced in place.
  - Hide work items are numbered by a generation counter. One can fire only
    while it is still the item the controller holds.
  - Opacity is recorded as the target of the last animation (0 or 1). The
    fade-out completion orders the panel out only if that target is still 0.
  - `PhaseOf` projects a controller onto Hidden / Visible(caps) /
    FadingOut(caps).
- **Legacy variant** (`LegacyHUD`, in `legacy_hud.dfy`).
  - The app delegate deduplicates flag changes against a plain `Bool`.
  - Its HUD controller builds a new panel on every show. The hold is 1.5 s
    for "on" and 0.8 s for "off".
  - Its fade-out completion forgets whatever panel is current. The model
    keeps panel and timer ids, so a panel that is on screen but no longer
    referenced can be seen.
- **Comparison** (`VariantComparison`, in `variant_comparison.dfy`). It relates
  the two dedup gates and shows that the stale-completion race exists in the
  legacy controller and not in the current one.

OS services are inputs: whether the process is trusted, whether tap and
run-loop-source creation succeed, the system Caps Lock state, and the screen
list. Every transition is taken to run on the main run loop.

The Caps Lock key-down path does not deduplicate. A key-down for key code 57
always notifies and records the system state (spac/CapsLockMonitor.swift:106-119,
`CapsLockMonitor.KeyDownRepeatsUnchangedState`). Only the flags path
deduplicates (spac/CapsLockMonitor.swift:131-136).

## Model

| member | source | states |
|---|---|---|
| `CapsLockMonitor.Callback` | spac/CapsLockMonitor.swift:94-138 | Tap-disabled events are swallowed and only schedule a re-enable. Every other event is passed on. A flags change emits iff its alpha-shift bit differs from `lastCapsOn`, and the bit is recorded. A Caps Lock key-down always emits the system state. Any other event emits nothing and records nothing. An emission always equals the new last state. |
| `CapsLockMonitor.CapsBit` | spac/CapsLockMonitor.swift:126-127 | A flags word reads as Caps Lock on exactly when its bit 16, the alpha-shift bit, is set. |
| `CapsLockMonitor.FlagsDedup` | spac/CapsLockMonitor.swift:123-137 | Over any flags-only event sequence, the number of notifications equals the number of value changes, counting an unknown start as a change. No notification repeats the previous one. The last state ends as the last bit seen. |
| `CapsLockMonitor.KeyDownRepeatsUnchangedState` | spac/CapsLockMonitor.swift:106-119 | The key-down path does not deduplicate: two Caps Lock key-downs with the state unchanged both notify. |
| `CapsLockMonitor.PressNotifiesOnce` | spac/CapsLockMonitor.swift:108-136 | A key-down followed by the matching flags change notifies once, because the key-down records the state that the flags path then compares against. |
| `CapsLockMonitor.StopPermissionMonitoring` | spac/CapsLockMonitor.swift:75-78 | Invalidates the referenced poll timer and drops it; nothing else changes. |
| `CapsLockMonitor.StartPermissionMonitoring` | spac/CapsLockMonitor.swift:62-64 | Schedules one new repeating timer and references it. A timer referenced before is not invalidated. |
| `CapsLockMonitor.Stop` | spac/CapsLockMonitor.swift:80-90 | Always leaves no tap, no run-loop source and no poll timer. Keeps `lastCapsOn` and the alert flag. Changes nothing when nothing is installed. |
| `CapsLockMonitor.StopIdempotent` | spac/CapsLockMonitor.swift:80-90 | Calling `stop()` twice is the same as calling it once. |
| `CapsLockMonitor.InstallEventTap` | spac/CapsLockMonitor.swift:141-164 | If tap creation fails, nothing changes. If the tap and its source are both created, the tap listens and `lastCapsOn` is seeded with the system state, with no notification. If only the tap is created, it is stored but does not listen. |
| `CapsLockMonitor.CheckAndRequestPermissions` | spac/CapsLockMonitor.swift:19-41 | Trusted: install the tap and stop polling, with no effects. Not trusted: the effects are exactly the prompt, followed by the alert iff it was never shown. It starts polling under a fresh timer id. The alert flag is set afterwards. Never notifies. |
| `CapsLockMonitor.Start` | spac/CapsLockMonitor.swift:14-17 | Equals `stop()` followed by the permission check, so a poll timer from an earlier start is invalidated before a new one is scheduled. Polling after `start()` happens iff the process is not trusted. When trusted, the tap exists iff its creation succeeded. At most one poll timer is added. The alert is shown iff untrusted and not shown before. |
| `CapsLockMonitor.PollTick` | spac/CapsLockMonitor.swift:64-72 | A tick while untrusted changes nothing. A trusted tick installs the tap and then stops polling, even when the install fails. The referenced poll timer is unscheduled as well as dropped. A trusted tick whose install succeeds leaves the tap listening with a seeded last state. |
| `CapsLockMonitor.ReenableTap` | spac/CapsLockMonitor.swift:97-101 | The scheduled block re-enables the tap the monitor holds when it runs. With no tap it changes nothing. |
| `CapsLockMonitor.RunPreservesValid` | spac/CapsLockMonitor.swift:14-90 | Over any input sequence: no poll timer leaks (at most one is scheduled, and it is the referenced one); polling and an installed tap exclude each other; a run-loop source implies a tap; a listening tap implies a known last state. |
| `CapsLockMonitor.StopFirstPreventsTimerLeak` | spac/CapsLockMonitor.swift:14-33 | Two untrusted permission checks without the leading `stop()` leave two repeating timers scheduled. Two untrusted `start()` calls leave one. |
| `CapsLockMonitor.AlertAtMostOnce` | spac/CapsLockMonitor.swift:36-39 | Over any input sequence the permission alert is shown at most once per monitor, and never again once the flag is set. |
| `CapsLockMonitor.TapDisableRecovers` | spac/CapsLockMonitor.swift:95-104 | A disable notification emits nothing, leaves `lastCapsOn` alone and queues one re-enable. Once that re-enable runs, the tap listens again. |
| `CapsLockMonitor.ReenableAfterStopIsHarmless` | spac/CapsLockMonitor.swift:96-101 | A re-enable that runs after `stop()` finds no tap and changes nothing. |
| `CapsLockMonitor.StoppedMonitorIgnoresEvents` | spac/CapsLockMonitor.swift:80-88 | After `stop()` no event reaches the callback. |
| `CapsLockMonitor.PollUntilTrusted` | spac/CapsLockMonitor.swift:64-72 | Polling goes on while untrusted. A trusted tick installs the tap, and afterwards no poll timer is scheduled or referenced. |
| `HUDGeometry.FirstAtOrigin` | spac/HUDController.swift:37 | Returns the index of the first screen whose frame starts at the origin; no screen before it does. |
| `HUDGeometry.PrimaryScreen` | spac/HUDController.swift:37-38 | Picks the first screen at the origin, otherwise the first screen, otherwise the zero rectangle. |
| `HUDGeometry.PillFrame` | spac/HUDController.swift:90-91 | The pill keeps its 170×44 size and ends `SidePadding` left of the screen's right edge and `TopPadding` below its top edge. |
| `HUDGeometry.Expand` | spac/HUDController.swift:93-96 | The frame grows by the shadow expansion in each dimension, keeps its centre, and contains the original frame. |
| `HUDGeometry.WindowFrame` | spac/HUDController.swift:93-101 | The panel frame has the pill size plus the shadow expansion, never sticks out above or right of the screen, and still contains the pill frame after the clamp. |
| `HUDGeometry.PillContentFrame` | spac/HUDController.swift:103-105 | The content frame has the pill's size, and adding the panel's origin to it gives the pill's screen origin. |
| `HUDGeometry.ClampTopRight` | spac/HUDController.swift:98-99 | The clamped frame keeps its size and only moves down or left. Its maxY is the smaller of its own maxY and the screen's, and likewise for maxX. So it never sticks out above or to the right of the screen. |
| `HUDGeometry.WindowHugsTopRight` | spac/HUDController.swift:93-101 | For every screen the panel frame ends flush with the screen's top and right edges. It keeps the pill size plus the shadow expansion. |
| `HUDGeometry.PillStaysInPlace` | spac/HUDController.swift:103-105 | The pill's content origin is the pill minus the window origin, and it lies wholly inside the panel for every screen. The pill's screen position keeps its paddings after the clamp. |
| `HUDController.MakeWindowIfNeeded` | spac/HUDController.swift:30-80 | Returns the existing panel unchanged. Otherwise it creates one panel that is transparent, ordered out, empty and framed for the primary screen. |
| `HUDController.Init` | spac/HUDController.swift:14-20 | Construction builds exactly one panel, hidden, with no hide armed. |
| `HUDController.Refresh` | spac/HUDController.swift:108-119 | Replaces the content of the first hosting view in place. It adds a view only when there is none, and leaves other views untouched. |
| `HUDController.RestartHideTimer` | spac/HUDController.swift:155-162 | Arms one new hide due `MaxVisibleAfterEvent` (0.8 s) after now. Its id differs from the item it replaces. |
| `HUDController.ShowHUD` | spac/HUDController.swift:82-133 | Reuses the panel and the hosting view. The panel ends ordered front with opacity target 1, showing the new state, with exactly one hide armed at now + 0.8 whatever the state. |
| `HUDController.HideHUD` | spac/HUDController.swift:135-146 | A no-op without a panel. Otherwise it cancels the pending hide and sets the opacity target to 0, with one more completion pending. |
| `HUDController.HideFires` | spac/HUDController.swift:155-161 | A fired work item runs `hideHUD` only if it is still the armed one. A cancelled item changes nothing. |
| `HUDController.FadeDone` | spac/HUDController.swift:147-151 | The completion orders the panel out iff its opacity target is still 0. Nothing else changes. |
| `HUDController.InitWf` | spac/HUDController.swift:14-20 | A newly built controller satisfies the invariant and is Hidden. |
| `HUDController.StepPreservesWf` | spac/HUDController.swift:82-161 | Every event preserves the invariant. |
| `HUDController.SinglePanel` | spac/HUDController.swift:30-31 | Over any event sequence only one panel is ever created. There is at most one hosting view, and a visible panel always has a hide armed. |
| `HUDController.Transitions` | spac/HUDController.swift:121-151 | Show makes any state Visible(b). The armed hide turns Visible(s) into FadingOut(s). Any other hide does nothing. A completion turns FadingOut into Hidden and leaves Visible as it is. |
| `HUDController.ShowDuringFadePreventsRemoval` | spac/HUDController.swift:147-151 | A show during a fade, followed by the fade's completion, ends Visible with the new state and a fresh hide armed. |
| `HUDController.OnlyLastHideFires` | spac/HUDController.swift:155-161 | After any burst of shows, only the item armed by the last show, due 0.8 s after it, can hide. Every earlier item is a no-op. |
| `HUDController.ReshowMidFadeScenario` | spac/HUDController.swift:121-151 | On at 0, hide at 0.8, off at 0.85 mid-fade, then the completion: the panel is never removed, shows "off", and has one hide armed. |
| `LegacyHUD.HoldDelay` | spac/AppDelegate.swift:53 | The hold is 1.5 s for "on" and 0.8 s for "off". It is longer exactly when Caps Lock turns on. |
| `LegacyHUD.InvalidateTimer` | spac/AppDelegate.swift:14-15 | The referenced timer is unscheduled and dropped. |
| `LegacyHUD.ShowHUD` | spac/AppDelegate.swift:9-57 | The current panel is ordered out and dropped and the timer is invalidated. Without a main screen it ends with no panel and no timer. Otherwise there is one new panel on screen showing the state and one new timer with the hold delay. Both id counters advance, so a later show's panel and timer are new. |
| `LegacyHUD.HideHUD` | spac/AppDelegate.swift:59-76 | A no-op without a panel. Otherwise it invalidates the timer, so it is no longer scheduled and no longer referenced, then fades a panel with content or removes an empty one at once. The id counters are kept. |
| `LegacyHUD.TimerFires` | spac/AppDelegate.swift:54-56 | A firing timer is spent, and it calls `hideHUD`. With no panel referenced, only the spent timer leaves the scheduled set; every other field is kept. With a panel, the current timer is unscheduled and dropped too. A panel with content starts fading and stays referenced and on screen. An empty panel is removed at once. |
| `LegacyHUD.FadeDone` | spac/AppDelegate.swift:68-71 | As written: orders out the captured panel and forgets the current panel, whichever it is. The timers and id counters are untouched. |
| `LegacyHUD.FadeDoneFixed` | spac/AppDelegate.swift:68-71 | As intended: forgets the current panel only if it is the captured one. The timers and id counters are untouched, so a newer panel's hide stays armed. |
| `LegacyHUD.AtMostOneTimer` | spac/AppDelegate.swift:9-15 | Even as written, at most one timer is ever scheduled, over any event sequence. |
| `LegacyHUD.FixedAtMostOnePanelOnScreen` | spac/AppDelegate.swift:9-13 | With the intended completion, every panel on screen is the current one, so at most one panel is ever on screen. |
| `LegacyHUD.StaleCompletionOrphansPanel` | spac/AppDelegate.swift:64-71 | As written, the sequence show, hide, show mid-fade, old completion leaves a panel on screen with no reference. Its own hide removes nothing, and the next show puts a second panel on screen. |
| `LegacyHUD.CapsLockOn` | spac/AppDelegate.swift:272 | A flags word reads as Caps Lock on exactly when its bit 16 is set. |
| `LegacyHUD.FlagsChanged` | spac/AppDelegate.swift:271-277 | Shows the HUD iff the Caps Lock bit differs from `previousCapsState`, then records the bit. |
| `LegacyHUD.LaunchIgnoresCapsOff` | spac/AppDelegate.swift:135 | Since `previousCapsState` starts false, a first flags change with Caps Lock off shows nothing. |
| `VariantComparison.LegacyDedupMatchesMonitor` | spac/AppDelegate.swift:271-277 | On any flags sequence the delegate shows exactly what the monitor's flags path emits from a known last state equal to the delegate's previous state. |
| `VariantComparison.LegacyStaleCompletionRace` | spac/AppDelegate.swift:64-75 | From any state with a fading-capable panel and a live timer, the sequence hide, show, old completion orphans the new panel as written. With the intended completion the new panel is kept, is the only one on screen, and its own hide, with the hold delay for its state, is the one scheduled timer. |
| `VariantComparison.StaleCompletionOnlyInLegacy` | spac/HUDController.swift:147-151 | The same race ends with the current controller's single panel Visible("off"), and with the legacy controller's panel on screen but unreferenced. |

## Findings

| source | as written | input that shows it | evidently intended | confidence | as-written member | corrected member |
|---|---|---|---|---|---|---|
| spac/AppDelegate.swift:68-71 | The fade-out completion sets `hudWindow = nil` unconditionally, even when a later `showHUD` has replaced the panel. | Show(on), its timer fires, Show(off) before the 0.25 s fade ends, then the first fade completes. The "off" panel stays on screen unreferenced, its own hide removes nothing, and the next show adds a second panel beside it. | Forget the current panel only if it is the panel whose fade finished. The current `HUDController.swift` gets the same effect by re-checking the opacity. | high (not executed) | `LegacyHUD.StaleCompletionOrphansPanel` | `LegacyHUD.FixedAtMostOnePanelOnScreen` |

## Left out

- Thread marshalling is not modelled: `presentCapsState`, `DispatchQueue.main.async/sync` and `Thread.isMainThread`. Every transition runs in order on one loop. The `onChange` hop and the seeding of `lastCapsOn` after installation (spac/CapsLockMonitor.swift:160-162) are taken as immediate. Only the tap re-enable block and the fade completions are kept as separate later events.
- OS calls are inputs, not modelled behaviour: `CGEvent.tapCreate`, `CFMachPortCreateRunLoopSource`, `AXIsProcessTrusted*` and `NSEvent.modifierFlags`. The model does not decide whether a tap is enabled from creation. It treats the tap as enabled by the explicit `tapEnable` call after its source is attached.
- `showPermissionAlert` is a modal `NSAlert` plus `NSWorkspace`. It is modelled only as the `ShowPermissionAlert` effect.
- Real time and animation are not modelled. Hide deadlines are recorded, but a hide firing is not tied to a clock. Fade durations (0.05 s and 0.2 s in the current controller, 0.2 s and 0.25 s in the legacy one) and the 2-second poll period are not modelled. Only the order of events matters here. The opacity during an animation is not modelled, only its target.
- The legacy panel frame arithmetic (spac/AppDelegate.swift:18-26), `HUDViewBuilder`, and the `CALayer` animation extension are left out. They only build views.
- The app delegate's menu, info window and monitor registration are left out. They are UI wiring.
- `deinit` of both classes is left out. It only calls `stop()` or cancels the work item, and both are modelled.
- spac/PreferencesStore.swift, spac/SettingsView.swift, spac/HUDContent.swift, spac/HUDView.swift, spac/BehindWindowBlurView.swift, spac/ContentView.swift and spac/InfoWindowController.swift are left out. They hold persistence and view code, and none of it affects the detector or the HUD.
- HUDGeometry: `CGFloat` is modelled as `real`. Rounding in the frame arithmetic (spac/HUDController.swift:40-55, 90-106) is not modelled. So the exact equalities of `HUDGeometry.WindowHugsTopRight` and `HUDGeometry.PillStaysInPlace` hold for the real-number model, and only approximately for `Double` frames far from the origin.
- HUDController.FadeDone: compares the opacity target, not the animated `alphaValue`, with 0. The target is what a later `showHUD` changes at once, so the guard reads the same.
