# Stopwatch: a verified model of the timekeeping core

The `Stopwatch` React component (`src/components/Stopwatch.tsx`) keeps three
pieces of state: `time`, the elapsed milliseconds; `isRunning`; and
`hasNotified`, a single-shot flag for the 10-minute target. While the
stopwatch runs, a 10 ms interval adds 10 to `time`. The tick whose new time
first reaches 600000 ms requests a beep and sets `hasNotified`. Start/Pause
flips `isRunning`. Reset stops the stopwatch, zeroes `time` and clears the
flag. `isAtTarget` tells whether `time` has reached 600000 ms. `formatTime`
splits the time into minutes, seconds and centiseconds. Each field is written
in decimal and padded to two characters with `padStart(2, "0")`.

The project has two modules:

- `StopwatchMachine` (`stopwatch.dfy`) gives the state machine twice. First,
  as pure functions on a `State` value: `TickStep`, `StartPause`, `Reset`,
  `AtTarget`, plus `RunTicks` and `Replay` for many ticks or events. The
  lemmas are proved about these. Second, as the class `Stopwatch`, whose
  fields the handlers `Tick`, `HandleStartPause` and `HandleReset` update in
  place. Each handler's contract ties the new fields to the matching function
  of the old fields. A beep request is the `bool` result of `Tick`. It is also
  counted in the field `beepRequests`. The ghost field `beepsAtLastReset`
  states "at most one beep since the last reset" as part of the class
  invariant `Valid()`.
- `TimeFormat` (`time_format.dfy`) models `formatTime`. That covers the floor
  divisions, decimal `toString` (`NatToString`), `padStart(2, "0")`
  (`PadStart2`), and an inverse `DigitsValue` that reads a numeral back.

One tick is one atomic step. A tick while paused changes nothing, because no
interval is installed while `isRunning` is false (lines 15-16 and 31).

## Model

| member | source | states |
|---|---|---|
| `StopwatchMachine.TickAdvancesTime` | src/components/Stopwatch.tsx:15-18 | a tick adds exactly 10 ms while running, leaves a paused state unchanged, and never changes `isRunning` |
| `StopwatchMachine.TickNotification` | src/components/Stopwatch.tsx:18-24 | a tick requests the beep iff the stopwatch runs, the flag is clear and the new time is at least 600000; that tick sets the flag; a set flag stays set and no beep follows |
| `StopwatchMachine.StartPauseFlips` | src/components/Stopwatch.tsx:52-54 | Start/Pause flips `isRunning`, keeps `time` and `hasNotified`, and pressing it twice restores the state |
| `StopwatchMachine.ResetClears` | src/components/Stopwatch.tsx:56-60 | reset gives `time == 0`, not running, flag clear, from any state; applying it twice equals applying it once |
| `StopwatchMachine.InitialInv` | src/components/Stopwatch.tsx:7-9 | the mount state (0, false, false) satisfies the reachability invariant |
| `StopwatchMachine.ApplyPreservesInv` | src/components/Stopwatch.tsx:16-60 | tick, Start/Pause and reset keep the invariant: time is a multiple of 10 and the flag is set exactly when time is at least 600000 |
| `StopwatchMachine.BeepExactlyAtTarget` | src/components/Stopwatch.tsx:18-23 | on reachable states, a tick that requests the beep lands exactly on 600000 ms |
| `StopwatchMachine.AtTargetIffNotified` | src/components/Stopwatch.tsx:63 | on reachable states, `isAtTarget` holds exactly when the beep has been requested |
| `StopwatchMachine.RunTicksPaused` | src/components/Stopwatch.tsx:15-31 | any number of ticks leaves a paused stopwatch unchanged and requests no beep |
| `StopwatchMachine.PauseFreezes` | src/components/Stopwatch.tsx:52-54 | after pausing a running stopwatch, the time stays at the value it had, however many ticks pass |
| `StopwatchMachine.RunTicksRunning` | src/components/Stopwatch.tsx:16-18 | n ticks of a running stopwatch add exactly 10n ms and keep it running |
| `StopwatchMachine.RunTicksAtMostOnce` | src/components/Stopwatch.tsx:21-23 | over any number of ticks at most one beep is requested; none once the flag is set; one exactly when the flag goes from clear to set |
| `StopwatchMachine.RunTicksFromReachable` | src/components/Stopwatch.tsx:16-26 | from a reachable running state, n ticks reach time `t + 10n`; the flag is set iff that time reaches 600000; one beep iff the flag was clear before and the target is reached |
| `StopwatchMachine.TenMinuteScenario` | src/components/Stopwatch.tsx:16-24 | after reset and Start, 59999 ticks give 599990 ms and no beep, and 60000 ticks give 600000 ms and exactly one beep |
| `StopwatchMachine.ReplayPreservesInv` | src/components/Stopwatch.tsx:16-60 | every sequence of ticks, Start/Pause presses and resets keeps the invariant |
| `StopwatchMachine.NoResetMonotone` | src/components/Stopwatch.tsx:17-60 | with no reset in an event sequence, the time never decreases and a set flag stays set |
| `StopwatchMachine.AtMostOneBeepBetweenResets` | src/components/Stopwatch.tsx:21-59 | an event sequence with no reset requests at most one beep; none if the flag was set at the start; one exactly when the flag goes from clear to set |
| `StopwatchMachine.BeepsBoundedByResets` | src/components/Stopwatch.tsx:21-60 | over any event sequence, the beeps requested are at most the number of resets, plus one if the flag was clear at the start |
| `StopwatchMachine.Stopwatch.constructor` | src/components/Stopwatch.tsx:7-9 | a new stopwatch is at 0 ms, paused, flag clear, with no beep requested |
| `StopwatchMachine.Stopwatch.Tick` | src/components/Stopwatch.tsx:16-27 | the fields become `TickStep` of the old fields; the result says whether the beep was requested; the beep counter grows by that; at most one beep since the last reset |
| `StopwatchMachine.Stopwatch.HandleStartPause` | src/components/Stopwatch.tsx:52-54 | the fields become `StartPause` of the old fields; beep counters unchanged |
| `StopwatchMachine.Stopwatch.HandleReset` | src/components/Stopwatch.tsx:56-60 | the fields become the reset state; the beep count since the last reset becomes 0 |
| `StopwatchMachine.Stopwatch.IsAtTarget` | src/components/Stopwatch.tsx:63 | true iff time is at least 600000 ms; on a valid stopwatch, iff the beep has been requested |
| `StopwatchMachine.Stopwatch.Run` | src/components/Stopwatch.tsx:15-28 | n ticks in a loop leave the fields as `RunTicks` predicts and return its beep count, which is at most 1 |
| `TimeFormat.Seconds` | src/components/Stopwatch.tsx:42 | the seconds field, `floor((ms % 60000) / 1000)`, is below 60 |
| `TimeFormat.Centiseconds` | src/components/Stopwatch.tsx:43 | the centiseconds field, `floor((ms % 1000) / 10)`, is below 100 |
| `TimeFormat.Decompose` | src/components/Stopwatch.tsx:41-43 | minutes*60000 + seconds*1000 + centiseconds*10 + ms%10 == ms |
| `TimeFormat.NatToString` | src/components/Stopwatch.tsx:46-48 | `toString` gives a non-empty string of decimal digits; it is one character iff n < 10, at most two if n < 100, and has no leading zero unless n == 0 |
| `TimeFormat.NatToStringRoundTrip` | src/components/Stopwatch.tsx:46-48 | reading the numeral back gives n |
| `TimeFormat.PadStart2` | src/components/Stopwatch.tsx:46-48 | `padStart(2, "0")` gives length max(2, \|s\|); it ends with s, everything before s is '0', and digits stay digits |
| `TimeFormat.PadStart2Value` | src/components/Stopwatch.tsx:46-48 | padding a numeral does not change the number it denotes |
| `TimeFormat.PadField` | src/components/Stopwatch.tsx:46-48 | a padded field is all digits and at least two characters long, exactly two for values below 100 |
| `TimeFormat.PadFieldValue` | src/components/Stopwatch.tsx:46-48 | a padded field reads back as its value |
| `TimeFormat.PadFieldShape` | src/components/Stopwatch.tsx:46-48 | a value below 10 is shown as '0' and its digit; from 10 on the field is the plain numeral |
| `TimeFormat.PadFieldWidth` | src/components/Stopwatch.tsx:46-48 | a field starts with '0' iff its value is below 10, and is two characters wide iff the value is below 100 |
| `TimeFormat.FormatTime` | src/components/Stopwatch.tsx:40-50 | minutes have at least two digits; seconds and centiseconds have exactly two; all three are decimal digits |
| `TimeFormat.FormatTimeFields` | src/components/Stopwatch.tsx:40-50 | the three displayed fields read back as ms/60000, (ms%60000)/1000 and (ms%1000)/10 |
| `TimeFormat.FormatTimeRoundTrip` | src/components/Stopwatch.tsx:40-50 | reading the display back gives ms with only the sub-centisecond remainder `ms % 10` lost |
| `TimeFormat.FormatTimeLeadingZeros` | src/components/Stopwatch.tsx:46-48 | each field gets a leading '0' iff its value is below 10; minutes are two characters wide iff below 100 |
| `TimeFormat.FormatTimeJustBeforeTarget` | src/components/Stopwatch.tsx:40-50 | 599999 ms displays as 09:59.99 |
| `TimeFormat.FormatTimeAtTarget` | src/components/Stopwatch.tsx:40-50 | 600000 ms displays as 10:00.00 |
| `TimeFormat.FormatTimeAtZero` | src/components/Stopwatch.tsx:40-50 | 0 ms displays as 00:00.00 |

## Left out

- JSX rendering, CSS class choice and the `Card`/`Button`/icon components (lines 65-141). They are presentation only; `isAtTarget` and the formatted fields are modelled, but not how they are drawn.
- Audio playback (`audioRef.current.play()`, lines 34-38) and the embedded WAV clip (lines 135-139). They are browser calls. The model records only that a beep was requested. It does not model whether the audio element exists or plays.
- `setInterval`/`clearInterval` and the `useEffect` lifecycle (lines 12-32). They depend on the scheduler. The model replaces them with the rule that a tick happens only while running, and one tick is one atomic step.
- React state-update batching and the stale `hasNotified` captured by the interval closure. In React, a tick queued before the re-render could still see `false` and request a second beep. The model reads the current flag on every tick. It assumes each update is applied before the next tick.
- JavaScript numbers are doubles. The model uses unbounded naturals. These agree for every time the stopwatch can reach in practice (multiples of 10 far below 2^53).
- Everything the component does not contain: a configurable target, the duration input, wall-clock anchored timing, repeated notifications at each multiple of the target, and a message that clears itself. The target is the constant 600000 ms.
