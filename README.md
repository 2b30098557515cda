# MenuBarTimer countdown, modelled in Dafny

MenuBarTimer is a macOS menu-bar app. Its status-bar item has a menu with
"Start Timer", "Stop Timer" and "Quit". Starting runs a one-minute countdown.
A repeating one-second Foundation `Timer` drives it. Each second the status-bar
button's title shows the time left as `mm:ss`. One second after `00:00` the
title becomes "⏱️ Done!". All of this logic lives in `AppDelegate`
(`MenuBarTimer/MenuBarTimer/AppDelegate.swift`). The project models it in
three modules:

- `Format` (`format.dfy`): the title formatter `String(format: "%02d:%02d", minutes, seconds)`
  re-specified over natural numbers (`Decimal` for `%d`, `Pad2` for `%02d`,
  `FormatMMSS`). `ParseMMSS` reads a label back and is the formatter's
  round-trip partner.
- `Countdown` (`countdown.dfy`): the countdown as a pure state machine. A
  `Snapshot` holds the tick-source flag, the seconds left and a `Title`
  (`Idle`, `Clock(seconds)` or `Done`). `Text` turns a `Title` into the string
  on screen. `Start`, `Stop` and `Tick` are `startTimer`, `stopTimer` and
  `updateTimer`. It also holds the lemmas: the per-tick properties, the
  end-to-end minute, and the invariant kept by any sequence of events.
- `MenuBarTimer` (`app_delegate.dfy`): the class `AppDelegate`. Its fields
  `active`, `timeRemaining` and `title` are updated in place by `StartTimer`,
  `StopTimer` and `UpdateTimer`, as in the Swift code. The ghost field `shown`
  records which kind of title is displayed. Each method's postcondition ties
  the new state to the matching `Countdown` function of the old state. It
  also keeps the object invariant `Valid()`: the title is `Text(shown)` and the
  state is `Countdown.Consistent`.

The constructor stands for the delegate after `applicationDidFinishLaunching`.
At that point no timer is scheduled, `timeRemaining` has its default of 60,
and the title is the stopwatch icon "⏱️" (U+23F1 U+FE0F).

There is no pause, preset, custom duration, completion sound or separate
completed state. The count starts at 60. Ticks 1 to 60 show `00:59` to
`00:00`, and tick 61 shows "⏱️ Done!" and stops the tick source. `stopTimer`
leaves `timeRemaining` as it is.

## Model

| member | source | states |
|---|---|---|
| `Format.Decimal` | MenuBarTimer/MenuBarTimer/AppDelegate.swift:54 | `%d` of a natural is a non-empty digit string without a leading zero, one character long exactly when the value is below 10 |
| `Format.Pad2` | MenuBarTimer/MenuBarTimer/AppDelegate.swift:54 | `%02d` of a natural is a digit string of at least two characters, exactly two when the value is below 100 |
| `Format.FormatMMSS` | MenuBarTimer/MenuBarTimer/AppDelegate.swift:51-54 | the label is minute digits, a colon, then two second digits; it starts with a digit and is five characters long exactly when the count is below 100 minutes |
| `Format.DecimalRoundTrip` | MenuBarTimer/MenuBarTimer/AppDelegate.swift:54 | reading the `%d` spelling back as a decimal number gives the original number |
| `Format.LeadingZero` | MenuBarTimer/MenuBarTimer/AppDelegate.swift:54 | the zero that `%02d` pads with does not change the value that is read back |
| `Format.Pad2RoundTrip` | MenuBarTimer/MenuBarTimer/AppDelegate.swift:54 | reading the `%02d` spelling back gives the original number |
| `Format.Pad2TwoDigits` | MenuBarTimer/MenuBarTimer/AppDelegate.swift:54 | below 100, `%02d` is exactly the tens digit followed by the units digit (so 0 is "00" and 59 is "59") |
| `Format.FormatRoundTrip` | MenuBarTimer/MenuBarTimer/AppDelegate.swift:51-54 | parsing the label gives minutes and seconds with seconds < 60 and minutes * 60 + seconds equal to the count it was made from |
| `Format.FormatInjective` | MenuBarTimer/MenuBarTimer/AppDelegate.swift:51-54 | two different counts never produce the same label |
| `Countdown.Text` | MenuBarTimer/MenuBarTimer/AppDelegate.swift:44-59 | the button's text is "⏱️", an `mm:ss` label or "⏱️ Done!"; it starts with a digit exactly when it is a label, and a label parses back to the seconds it shows |
| `Countdown.TextInjective` | MenuBarTimer/MenuBarTimer/AppDelegate.swift:44-59 | the idle icon, every `mm:ss` label and "⏱️ Done!" are pairwise different texts, so the title on screen determines the display state |
| `Countdown.Stop` | MenuBarTimer/MenuBarTimer/AppDelegate.swift:40-46 | stopping leaves no tick source, shows the idle icon and leaves the remaining count untouched |
| `Countdown.Start` | MenuBarTimer/MenuBarTimer/AppDelegate.swift:34-38 | starting leaves a running tick source and a full 60 seconds, showing the title that the stop it begins with restores |
| `Countdown.Tick` | MenuBarTimer/MenuBarTimer/AppDelegate.swift:48-62 | with time left, a tick takes off exactly one second without going below zero, keeps the tick source and shows the new count; with none left, it stops the tick source, keeps the count and shows "Done!" (the text-level facts are in `TickCountsDown` and `TickFinishes`) |
| `Countdown.StopIdempotent` | MenuBarTimer/MenuBarTimer/AppDelegate.swift:40-46 | stopping twice gives the same state as stopping once |
| `Countdown.StartForgets` | MenuBarTimer/MenuBarTimer/AppDelegate.swift:34-38 | starting from any two states gives the same state: active, 60 seconds, idle icon |
| `Countdown.TickCountsDown` | MenuBarTimer/MenuBarTimer/AppDelegate.swift:49-55 | a tick with time left takes off exactly one second, never goes below zero, keeps the tick source as it was, and shows a label that parses back to the new count |
| `Countdown.TickFinishes` | MenuBarTimer/MenuBarTimer/AppDelegate.swift:56-61 | a tick with no time left stops the tick source, shows "⏱️ Done!" and leaves the count at zero |
| `Countdown.CountdownFromStart` | MenuBarTimer/MenuBarTimer/AppDelegate.swift:34-62 | the k-th tick after a start (k up to 60) leaves the tick source running with 60 - k seconds left, showing 60 - k as `mm:ss` |
| `Countdown.FullCountdown` | MenuBarTimer/MenuBarTimer/AppDelegate.swift:34-62 | after a start, tick 1 shows "00:59" and tick 60 shows "00:00" |
| `Countdown.CountdownDone` | MenuBarTimer/MenuBarTimer/AppDelegate.swift:34-62 | tick 61 after a start, one tick after "00:00", shows "⏱️ Done!" with the tick source stopped and zero left |
| `Countdown.FirstAndLastLabels` | MenuBarTimer/MenuBarTimer/AppDelegate.swift:51-54 | 59 seconds left is labelled "00:59" and 0 seconds left is labelled "00:00" |
| `Countdown.InitialConsistent` | MenuBarTimer/MenuBarTimer/AppDelegate.swift:14-22 | the state after launch satisfies the countdown invariant |
| `Countdown.ApplyPreserves` | MenuBarTimer/MenuBarTimer/AppDelegate.swift:34-62 | start, stop and tick each keep the invariant: count in [0, 60], a clock title shows the count, "Done!" only at zero with no tick source, and an active source with the idle icon only at 60 |
| `Countdown.ReplayConsistent` | MenuBarTimer/MenuBarTimer/AppDelegate.swift:14-62 | over any sequence of start, stop and tick from a consistent state (such as launch), the invariant holds and the count stays within [0, 60] |
| `MenuBarTimer.AppDelegate.constructor` | MenuBarTimer/MenuBarTimer/AppDelegate.swift:13-22 | after launch: no tick source, 60 seconds left, title "⏱️", and the object invariant holds |
| `MenuBarTimer.AppDelegate.StopTimer` | MenuBarTimer/MenuBarTimer/AppDelegate.swift:40-46 | in place: tick source cleared, title "⏱️", `timeRemaining` unchanged, invariant kept, new state equal to `Countdown.Stop` of the old |
| `MenuBarTimer.AppDelegate.StartTimer` | MenuBarTimer/MenuBarTimer/AppDelegate.swift:34-38 | in place: stops first, then the tick source is set and `timeRemaining` is 60 with title "⏱️"; invariant kept, new state equal to `Countdown.Start` of the old |
| `MenuBarTimer.AppDelegate.UpdateTimer` | MenuBarTimer/MenuBarTimer/AppDelegate.swift:48-62 | in place: with time left, one second less, the tick source unchanged, and a title that parses back to the new count; at zero, the tick source stopped, title "⏱️ Done!" and count still zero; invariant kept, new state equal to `Countdown.Tick` of the old |

## Left out

- Building the status item and its menu in `applicationDidFinishLaunching` (AppDelegate.swift:17-32): this is AppKit plumbing. The button is treated as always present. Its only effect, the idle title, is folded into the constructor. "Quit" is outside the countdown.
- Scheduling by Foundation `Timer` and delivery by the run loop (AppDelegate.swift:36, 41): the timer object is replaced by the flag `active`. The run loop's own list of scheduled timers is not modelled.
- MenuBarTimer.AppDelegate.StartTimer: "exactly one tick source after start" is stated as `active` being set. Invalidating the old timer before scheduling the new one is modelled by the call to `StopTimer`. The flag cannot express two live timers at once.
- MenuBarTimer.AppDelegate.UpdateTimer: it may be called whether or not `active` is set, because the Swift method does not check it either. The property that only a scheduled timer fires it belongs to the run loop, which is not modelled.
- `TimeInterval` is a `Double` in the source (AppDelegate.swift:15). Only whole values 60, 59, …, 0 ever occur, and `Int(...)` truncation of a whole non-negative value is exact. So the count is an `int`, and floating point is not modelled.
- `String(format:)` is a Foundation call. Its `%02d` behaviour on non-negative integers is re-specified by `Format.Pad2` and `Format.Decimal`.
- `MenuBarTimer/MenuBarTimer/ContentView.swift`: a SwiftUI view with a slider and a start button whose action is empty. It is not connected to the timer.
- `MenuBarTimer/MenuBarTimer/MenuBarTimerApp.swift`: the app entry point and its scene. It holds no logic.
