# Metronome beat scheduler — a Dafny model

This project models the beat-scheduling core of the Metrenome iOS metronome.

- **`MetronomeEngine`** owns a two-state transport (stopped / running) and a schedule cursor: the host time of the next beat and its running index.
- **A tick** fills a 0.25 s lookahead window. For every due beat it decides the accent and hands a click, a haptic pulse and a UI pulse to the sinks. It then moves the cursor one beat period on.
- **Tap tempo** keeps the last six taps. It takes the median of the plausible intervals between them, strictly inside (0.12 s, 2 s), and turns it into beats per minute clamped to [20, 300].
- **Host-time conversion** moves between seconds and integer host-clock ticks through the platform's fixed `numer/denom` timebase.

Files and modules:

- `audio_time.dfy` (`AudioTime`): seconds ⇄ host ticks. These are pure functions over `real`, with explicit UInt64 ranges and wrap-around.
- `scheduler.dfy` (`Scheduler`): what one tick dispatches, as pure functions. It has the accent rule, the per-beat events, the beat sequence, and `DueCount`, the number of beats due in a window. It also holds the lemmas about them.
- `tap_tempo.dfy` (`TapTempo`): the interval → filter → sort → median → clamp pipeline.
- `engine.dfy` (`Engine`): the class `MetronomeEngine`, whose methods assign its fields.
  - `Tick`'s loop is proved against `DueCount`/`Beats`/`Dispatch`: it dispatches exactly the due beats, in order, and leaves the cursor at the first beat that is not due.
  - The events handed to the audio sink, the haptic sink and the UI are recorded in a ghost log `events`.

The clocks (`mach_absolute_time`, `Date()`) are read by the caller and passed in as `hostNow` / `now`. The timebase is a constant field of the engine.

## Model

| member | source | states |
|---|---|---|
| `Engine.MetronomeEngine.constructor` | MetrenomeApp/metrononeEngine.swift:9-27 | Initial state: 120 BPM, 4 beats per bar, beep, sound on, haptics off, stopped, cursor 0/0, no taps, empty event log. |
| `Engine.MetronomeEngine.Start` | MetrenomeApp/metrononeEngine.swift:34-42 | A no-op when already running. Otherwise it sets the cursor to `hostNow + toHostTime(0.1)` with index 0 and marks the transport running. |
| `Engine.MetronomeEngine.Stop` | MetrenomeApp/metrononeEngine.swift:44-49 | The transport is stopped. Only `isRunning` may change, so the cursor is left as it was. |
| `Engine.MetronomeEngine.ResetPhase` | MetrenomeApp/metrononeEngine.swift:51-58 | A no-op when stopped. When running it sets the cursor to `hostNow + toHostTime(0.12)` with index 0, so the next beat is accented. |
| `Engine.MetronomeEngine.Tick` | MetrenomeApp/metrononeEngine.swift:68-95 | When stopped, nothing changes and nothing is dispatched (also right after `Stop`). When running, the cursor advances by exactly the due beats (`DueCount`), the index by the same count, and the log grows by exactly those beats' events, in order. |
| `Engine.MetronomeEngine.ScheduleDueBeats` | MetrenomeApp/metrononeEngine.swift:70-94 | The body of a running tick. The cursor ends at the first beat that is not due, the index advances by the number of due beats, and the log grows by exactly their events. The loop invariant `TickLoop` ties `t`, `beatIndex` and the log to `DueCount`/`Beats`/`Dispatch`. |
| `Engine.MetronomeEngine.DispatchBeat` | MetrenomeApp/metrononeEngine.swift:75-88 | One beat appends exactly `BeatEvents` of that beat to the log: a click if sound is on, then a haptic if haptics are on, then the UI pulse. |
| `Engine.MetronomeEngine.TapTempo` | MetrenomeApp/metrononeEngine.swift:99-114 | The tap history becomes the last 6 taps including the new one. With no estimate, tempo and cursor are unchanged. With an estimate, the tempo becomes it and the phase is reset exactly as `resetPhase` does. |
| `AudioTime.ToHostTime` | MetrenomeApp/AudioTime.swift:7-13 | Seconds convert to the exact tick count truncated toward zero: the result is at most the exact count and less than one tick below it. |
| `AudioTime.HostTimeToSeconds` | MetrenomeApp/AudioTime.swift:15-20 | Host times convert to non-negative seconds, and host time 0 is 0 s. |
| `AudioTime.ShortDelayRepresentable` | MetrenomeApp/AudioTime.swift:7-13 | Every delay in [0, 4] s converts to UInt64 without trapping, for every UInt32 timebase. This covers the 0.1, 0.12 and 0.25 s constants. |
| `AudioTime.ToHostTimeZero` | MetrenomeApp/AudioTime.swift:10-12 | `toHostTime(0) == 0`. |
| `AudioTime.ToHostTimeMonotone` | MetrenomeApp/AudioTime.swift:10-12 | `toHostTime` is monotone non-decreasing in seconds. |
| `AudioTime.HostTimeToSecondsStrictlyIncreasing` | MetrenomeApp/AudioTime.swift:15-20 | `hostTimeToSeconds` is non-negative and strictly increasing in the host time. |
| `AudioTime.HostTimeToSecondsAdditive` | MetrenomeApp/AudioTime.swift:15-20 | Seconds of `h + d` ticks are the seconds of `h` plus the seconds of `d`. |
| `AudioTime.ExactTicksInverse` | MetrenomeApp/AudioTime.swift:8-11 | Both directions use the same timebase ratio: the exact tick count of `s` times one tick's duration is `s`. |
| `AudioTime.RoundTripLosesLessThanOneTick` | MetrenomeApp/AudioTime.swift:7-20 | `hostTimeToSeconds(toHostTime(s)) <= s`, and the loss is less than one host tick's duration. |
| `AudioTime.AddSeconds` | MetrenomeApp/AudioTime.swift:22-24 | `addSeconds` is `h + toHostTime(s)` when that fits in 64 bits and wraps by 2^64 otherwise; it never traps. |
| `AudioTime.AddSecondsAdvances` | MetrenomeApp/AudioTime.swift:22-24 | Without wrap-around, `addSeconds(h, s)` lies at most `s` and more than `s` minus one tick after `h`. |
| `Scheduler.UiDelay` | MetrenomeApp/metrononeEngine.swift:85 | The UI delay is never negative, below the 0.25 s lookahead for every dispatched beat, and 0 for a beat at or behind the clock reading. |
| `Scheduler.UiDelayIsOffset` | MetrenomeApp/metrononeEngine.swift:85 | For a beat that is not late, the UI delay is exactly the beat's offset from the clock reading. |
| `Scheduler.BeatEvents` | MetrenomeApp/metrononeEngine.swift:75-88 | All events of a beat carry its host time and accent. A beat yields exactly one event per enabled sink plus the UI pulse, so at most one click and one haptic. A click is present iff sound is on, and a haptic with 1.0/0.9 (accent) or 0.5/0.6 iff haptics are on. With both on, the click comes before the haptic. The UI pulse is always present, exactly once, and last. |
| `Scheduler.IsAccent` | MetrenomeApp/metrononeEngine.swift:75 | Beat 0 of a phase is always accented, every beat is accented when a bar has at most one beat, and the other beats of the first bar are not. |
| `Scheduler.HapticFor` | MetrenomeApp/metrononeEngine.swift:81 | The haptic parameters lie in (0, 1]. The intensity is full iff the beat is accented; an unaccented beat is both softer and less sharp than 0.9. |
| `Scheduler.InWindow` | MetrenomeApp/metrononeEngine.swift:74 | The loop guard: a beat is due when it lies less than 0.25 s after the clock reading. A beat at or before the clock reading is always due. |
| `Scheduler.DueCount` | MetrenomeApp/metrononeEngine.swift:72-94 | The number of beats a tick dispatches. A cursor that is not ahead of the clock gives at least one beat, and the last dispatched beat lies before the window's end. |
| `Scheduler.Dispatch` | MetrenomeApp/metrononeEngine.swift:72-93 | Each dispatched beat yields between one and three events, and there are no events iff there are no beats. |
| `Scheduler.AccentPattern` | MetrenomeApp/metrononeEngine.swift:75 | After a phase reset, beat `j` is accented iff `j % max(beatsPerBar, 1) == 0`. With `beatsPerBar <= 1` every beat is accented. |
| `Scheduler.FourFourAccents` | MetrenomeApp/metrononeEngine.swift:75 | With 4 beats per bar the accents run T, F, F, F, T, F, F, F. |
| `Scheduler.Beats` | MetrenomeApp/metrononeEngine.swift:72-93 | A tick over `count` beats produces exactly `count` beats. |
| `Scheduler.BeatsAt` | MetrenomeApp/metrononeEngine.swift:91-92 | Dispatched beat `j` sounds `j` steps after the cursor and carries index `beatIndex + j`: an increasing arithmetic sequence with one tempo snapshot per tick. |
| `Scheduler.BeatTimeNext` | MetrenomeApp/metrononeEngine.swift:91 | Consecutive beats are exactly one beat period of host ticks apart. |
| `Scheduler.BeatsSplit` | MetrenomeApp/metrononeEngine.swift:72-93 | Running `a + b` beats from a cursor is running `a` beats and then `b` more from where they left the cursor. |
| `Scheduler.DispatchAppend` | MetrenomeApp/metrononeEngine.swift:72-93 | The events of a concatenation of beats are the concatenation of their events. |
| `Scheduler.DispatchNextBeat` | MetrenomeApp/metrononeEngine.swift:72-93 | Dispatching one more beat appends exactly that beat's events. |
| `Scheduler.InWindowBeforeEnd` | MetrenomeApp/metrononeEngine.swift:72 | The lookahead window is bounded: every due beat lies before `hostNow + toHostTime(0.25) + 1`, which is why the loop ends. |
| `Scheduler.InWindowDownwardClosed` | MetrenomeApp/metrononeEngine.swift:72 | A beat earlier than a due beat is due too, late beats included. |
| `Scheduler.InWindowLater` | MetrenomeApp/metrononeEngine.swift:72 | A beat due at one clock reading is still due at any later reading. |
| `Scheduler.DueCountExact` | MetrenomeApp/metrononeEngine.swift:72-94 | Beat `j` after the cursor is dispatched by the tick iff it lies less than 0.25 s after the clock reading (both directions). |
| `Scheduler.TickStopsAtFirstUndueBeat` | MetrenomeApp/metrononeEngine.swift:72-94 | The cursor a tick leaves is the first beat at least 0.25 s ahead, and every beat before it was due. |
| `Scheduler.DueCountShift` | MetrenomeApp/metrononeEngine.swift:72-94 | Moving the cursor past `j` due beats leaves exactly `j` fewer due. |
| `Scheduler.TickBeatCountBound` | MetrenomeApp/metrononeEngine.swift:72-94 | When the cursor is not late, one tick dispatches at most `toHostTime(0.25) / step + 1` beats. |
| `Scheduler.ConsecutiveTicksCompose` | MetrenomeApp/metrononeEngine.swift:72-94 | Two ticks without a resync dispatch together exactly the beats one tick at the later reading would, in order: no beat is skipped or repeated. |
| `Scheduler.TickLoopStep` | MetrenomeApp/metrononeEngine.swift:72-93 | One iteration on a due beat keeps the loop invariant. The cursor moves by exactly `toHostTime(60/bpm)` without wrapping, the index by 1, and the beat's events are appended. |
| `Scheduler.TickLoopExit` | MetrenomeApp/metrononeEngine.swift:72-94 | When the loop guard fails, the loop has dispatched exactly `DueCount` beats. |
| `Scheduler.TempoRangeRepresentable` | MetrenomeApp/metrononeEngine.swift:70 | Every tempo in [20, 300] BPM has a beat period that converts without trapping. |
| `TapTempo.Recent` | MetrenomeApp/metrononeEngine.swift:102 | The history keeps `min(count, 6)` taps, and they are the most recent ones. |
| `TapTempo.Intervals` | MetrenomeApp/metrononeEngine.swift:104 | There is one interval per pair of consecutive taps, each the later tap minus the earlier. |
| `TapTempo.Plausible` | MetrenomeApp/metrononeEngine.swift:104 | A plausible interval is strictly positive, so the rate `60 / interval` is defined for it. |
| `TapTempo.KeepPlausible` | MetrenomeApp/metrononeEngine.swift:104 | Every interval strictly inside (0.12, 2.0) is kept as often as it occurs, and every other interval is dropped. |
| `TapTempo.Insert` | MetrenomeApp/metrononeEngine.swift:106 | Inserting into a sorted sequence gives a sorted permutation with the new value added. |
| `TapTempo.Sort` | MetrenomeApp/metrononeEngine.swift:106 | The result is sorted ascending and a permutation of the input. |
| `TapTempo.Median` | MetrenomeApp/metrononeEngine.swift:107-108 | The median lies between the two middle values (one value for an odd count, their mean for an even count). |
| `TapTempo.MedianSplitsHalves` | MetrenomeApp/metrononeEngine.swift:107-108 | The median (the mean of the two middle values for an even count) is at least the lower half and at most the upper half. |
| `TapTempo.Clamp` | MetrenomeApp/metrononeEngine.swift:109 | The result lies in [lo, hi]. It equals the input when the input already does, `hi` when the input is above, and `lo` when it is below. |
| `TapTempo.EstimateBpm` | MetrenomeApp/metrononeEngine.swift:103-109 | There is no estimate iff there are fewer than 2 taps or no plausible interval. Any estimate lies in [20, 300]. |
| `TapTempo.PlausibleMedian` | MetrenomeApp/metrononeEngine.swift:104-108 | The median of plausible intervals is itself a plausible interval. |
| `TapTempo.EstimateAboveThirty` | MetrenomeApp/metrononeEngine.swift:104-109 | Every estimate exceeds 30 BPM, so the lower clamp bound of 20 never binds. |
| `TapTempo.ExampleIntervals` | MetrenomeApp/metrononeEngine.swift:104 | Taps at 0, 0.5, 1.02, 1.48 s give intervals 0.5, 0.52, 0.46. |
| `TapTempo.ExampleSort` | MetrenomeApp/metrononeEngine.swift:106 | Intervals 0.5, 0.52, 0.46 sort to 0.46, 0.5, 0.52. |
| `TapTempo.ExampleMedian` | MetrenomeApp/metrononeEngine.swift:107-108 | Their median is 0.5. |
| `TapTempo.ExampleTaps` | MetrenomeApp/metrononeEngine.swift:99-109 | Those taps give exactly 120 BPM. |
| `TapTempo.ExampleEvenTaps` | MetrenomeApp/metrononeEngine.swift:104-109 | Taps at 0, 0.4, 1.0 s give intervals 0.4 and 0.6; the even-count median is their mean 0.5, so the estimate is exactly 120 BPM. |
| `TapTempo.ExampleFastTaps` | MetrenomeApp/metrononeEngine.swift:104-109 | Taps 0.15 s apart (400 BPM) are plausible, and the estimate is clamped to exactly 300 BPM. |

## Left out

- IEEE `Double` rounding: seconds and tempos are exact `real`s. `toHostTime` truncates the exact real product, and `hostTimeToSeconds` is the exact quotient.
- Clock reads: `mach_absolute_time`, `Date()` and `mach_timebase_info` become parameters (`hostNow`, `now`) and a constant timebase field.
- The sinks: the audio click engine, its `ClickSynth` DSP and the CoreHaptics engine with its restart-on-error path are not modelled. Each call to them is an entry in the ghost `events` log.
- The UI `pulse` toggle and its `asyncAfter` delivery are logged as a `UiPulse` event carrying its delay; the `pulse` field itself is not modelled.
- Timers and queues: the 50 Hz `DispatchSourceTimer` (`startScheduler`, the `scheduleInterval` constant, the timer cancel in `stop`) becomes the caller invoking `Tick`. The main-queue hop in `tapTempo` becomes a direct assignment of the tempo followed by `ResetPhase`.
- `prepare`, and the audio start/stop calls in `start`/`stop`, touch only the sinks.
- Engine.MetronomeEngine.Start: the trapping `now + toHostTime(0.1)` is a precondition that the sum fits in 64 bits.
- Engine.MetronomeEngine.ResetPhase: the trapping `now + toHostTime(0.12)` is likewise a precondition.
- Engine.MetronomeEngine.Tick: requires a positive tempo whose period converts to at least one host tick, and no 64-bit wrap-around of the host clock inside one window. Near 2^64 the wrapping `&+` would make the loop run on; that case is not modelled.
- Engine.MetronomeEngine.Tick: its precondition hides three behaviours of the source. The `bpm` setter does not clamp (metrononeEngine.swift:9), so `bpm = +inf` gives a beat period of 0 ticks and the loop at line 74 never exits. A tempo in [-6e10·denom/numer, 0], or NaN, makes the conversion at AudioTime.swift:12 trap. A negative tempo of larger magnitude gives a period of less than one tick in magnitude, which `UInt64(_:)` truncates to 0 ticks, so the loop does not end either. A cursor far behind the clock gives a burst of late beats of any length; `TickBeatCountBound` bounds a tick only when the cursor is not behind the clock.
- Concurrency: the tick runs on a global dispatch queue (metrononeEngine.swift:61-63), while `start`, `stop`, `resetPhase` and `tapTempo` run on the main actor, with no lock between them. A `resetPhase` during a tick has its cursor overwritten by line 94, while the `beatIndex = 0` it wrote keeps being incremented. The model runs each method to completion, one at a time.
- AudioTime.ToHostTime: the trapping `UInt64(_:)` conversion at AudioTime.swift:12 is modelled as the precondition `Representable`. Its `0.0 <= seconds` is stricter than Swift, which truncates values in (-1, 0) to 0 without trapping; no caller passes a negative delay.
- Engine.MetronomeEngine.ScheduleDueBeats: `beatIndex &+= 1` is modelled on unbounded `nat`, so its signed 64-bit wrap is not modelled.
- The interface's clamping of `bpm` to [20, 300] and of beats per bar to 1...12 is in the SwiftUI view and not modelled. The engine accepts any `beatsPerBar`, and `IsAccent` treats values below 1 as 1, as the source does. `TempoRangeRepresentable` shows that every interface tempo meets `Tick`'s conversion precondition.
- `Date` values are modelled as seconds on one real line; `timeIntervalSince` is their difference.
