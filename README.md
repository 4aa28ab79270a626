# Countdown timer core in Dafny

A verified model of the logic at the centre of a browser countdown timer:

- **Timer engine** (`timer_engine.dfy`, module `TimerEngine`). This is the countdown from `src/timerEngine.js`, which measures time left against an absolute end time rather than counting ticks.
  - `ComputeRemainingSec` is the ceiling rule. It turns an absolute end time and a clock reading into whole seconds left.
  - The `Engine` class is the four-state machine (Idle, Running, Paused, Finished) that `createTimerEngine` keeps in its closure. The closure variables are fields, and `start`, `pause`, `resume`, `stop`, `restart` and `tick` are methods that reassign them.
  - The clock is an integer argument. `start` and `resume` read the clock twice (once for the end time, once in their closing `tick`), so they take two readings.
  - The interval handle is the field `armed`. The intervals set and not yet cleared are counted in the ghost field `liveSamplers`.
  - Every `onTick(remainingSec, state)` / `onFinish()` call is appended to a ghost event log.
  - Each method is proved equal to a transition function on a `Snapshot` value (`AfterStart`, `AfterTick`, …). The engine's promises are proved as lemmas about those functions:
    - one sampler exactly while Running;
    - at most one finish per run;
    - pause/resume keeps the whole-second remainder. The end time becomes `now + 1000 * remainingSec`, which can be later than before (see below);
    - `stop` works from any state;
    - a countdown completes.
- **Input normaliser and display helpers** (`time_utils.dfy`, module `TimeUtils`), from `src/timeUtils.js`:
  - `Clamp`;
  - JavaScript's `trim` over its exact whitespace set;
  - `ParseIntStrict`, whose grammar is `[+-]?\d+`;
  - `NormalizeTime`: error precedence, negative clamping, carrying seconds into minutes, then the maximum-minutes clamp;
  - `FormatHMS`;
  - `EscapeHtml`.
- **Preset storage helpers** (`storage.dfy`, module `Storage`), from `src/storage.js`:
  - `UpsertPreset`, a method over arrays that copies its input and never changes it;
  - `DeletePreset`;
  - the field sanitising of `loadPresets` and `loadLastSettings`, applied to an already parsed value.
- `wrappers.dfy` (module `Wrappers`) holds the `Option` type. It stands for JavaScript's `null` / `undefined`.

A pause and resume add no drift only when the last sample saw a whole number of seconds left. `pause` does not read the clock and keeps the rounded-up seconds of the last sample, and `resume` counts them from the new clock reading. So each pause and resume can move the end later by the time since that sample plus under a second, and repeated pauses add up. The model follows the code: `PauseResumeDelay` bounds the delay, and `PauseResumeDelayExample` shows a 10-second run whose end moves from 10000 ms to 10999 ms.

Numbers that the source passes where text is expected are modelled as their decimal text, `Decimal(n)`, which is what `String(n)` gives for an integer below 10^21 in magnitude. `ParseNumber` proves that such text parses back to `n`.

## Model

| member | source | states |
|---|---|---|
| `TimerEngine.ComputeRemainingSec` | src/timerEngine.js:8-11 | the result is never negative, is 0 once `now >= end`, and is the least `k >= 0` with `end - now <= 1000 * k` (the ceiling of the difference in seconds) |
| `TimerEngine.CeilDiv1000` | src/timerEngine.js:9 | `Math.ceil(d / 1000)`: the result `r` satisfies `d <= 1000 * r < d + 1000`, so it is the ceiling |
| `TimerEngine.RemainingIsLeast` | src/timerEngine.js:9 | no smaller non-negative count of seconds covers the time left |
| `TimerEngine.RemainingMonotone` | src/timerEngine.js:8-11 | the remaining time never increases as the clock advances |
| `TimerEngine.RemainingOfWholeSeconds` | src/timerEngine.js:8-11 | an end time exactly `k` seconds ahead reads as `k` seconds left. So a start with an unchanged clock reads back its full duration, and a pause and resume lose no time only when the last sample saw a whole number of seconds left |
| `TimerEngine.ComputeRemainingSecExamples` | tests/timerEngine.test.js:5-18 | (10000, 9001) gives 1, (10000, 9000) gives 1, (10000, 8999) gives 2, (10000, 10000) and (10000, 12000) give 0 |
| `TimerEngine.FinishingTickKeepsInv` | src/timerEngine.js:27-34 | a sample that finds the time used up keeps the invariant: Finished, 0 remaining, sampler cleared, and the run's one finish last in the log |
| `TimerEngine.CountingTickKeepsInv` | src/timerEngine.js:27-36 | a sample that finds time left keeps the invariant and adds no finish |
| `TimerEngine.TickKeepsInv` | src/timerEngine.js:25-37 | a sample taken while Running re-establishes the full engine invariant: either time is left, or the engine is Finished with one finish notification as its last event |
| `TimerEngine.StartKeepsInv` | src/timerEngine.js:39-48 | `start` from any state keeps the invariant: the old interval is cleared before a new one is armed, so at most one sampler is live |
| `TimerEngine.PauseKeepsInv` | src/timerEngine.js:50-55 | `pause` keeps the invariant (it disarms the sampler when it leaves Running) |
| `TimerEngine.ResumeKeepsInv` | src/timerEngine.js:57-63 | `resume` keeps the invariant; it arms a sampler without clearing one, and this is safe because none is live while Paused |
| `TimerEngine.StopKeepsInv` | src/timerEngine.js:65-71 | `stop` keeps the invariant from every state |
| `TimerEngine.StepKeepsInv` | src/timerEngine.js:39-75 | every public call, and every firing of the interval, keeps the invariant |
| `TimerEngine.RunKeepsInv` | src/timerEngine.js:13-82 | after any sequence of calls and samples the invariant holds: remaining time is never negative, one live sampler while Running and none otherwise, at most one finish per run |
| `TimerEngine.InitialInv` | src/timerEngine.js:14-18 | a freshly created engine satisfies the invariant |
| `TimerEngine.StepAppends` | src/timerEngine.js:25-71 | each call other than `start` / `restart`, and each interval firing, keeps the run and only appends to the callback log |
| `TimerEngine.RunAppends` | src/timerEngine.js:25-71 | calls other than `start`/`restart` only append to the callback log and do not begin a new run |
| `TimerEngine.NoSecondFinish` | src/timerEngine.js:25-37 | once Finished, no further finish notification occurs until the next `start` or `restart`, whatever is called |
| `TimerEngine.GuardsAreNoOps` | src/timerEngine.js:26 | `pause` unless Running, `resume` unless Paused and a sample unless Running change nothing and emit nothing (guards at lines 26, 51 and 58) |
| `TimerEngine.StopFromAnyState` | src/timerEngine.js:65-71 | `stop(x)` from any state gives Idle with `initialSec = remainingSec = max(0, x)`, no sampler and one tick reporting that value |
| `TimerEngine.StartFromAnyState` | src/timerEngine.js:39-48 | with an unchanged clock, `start(t)` sets `initialSec = max(0, t)` and the end time `max(0, t)` seconds ahead. A positive duration is then Running with its sampler armed, after two ticks of the full duration (line 45 and the `tick()` at line 47). Zero finishes at once, with exactly one finish as the last event |
| `TimerEngine.PauseResumeKeepsRemainder` | src/timerEngine.js:50-63 | pausing and then resuming at the same clock value leaves the engine Running, with one sampler and the whole-second remainder it had. The end time becomes `now + 1000 * remainingSec`, which can be later than before |
| `TimerEngine.PauseResumeDelay` | src/timerEngine.js:50-62 | a pause and resume at `now` after a sample at `sampleMs` moves the end time later by `now - sampleMs` plus less than a second. The extra part is zero exactly when the sample saw a whole number of seconds left |
| `TimerEngine.PauseResumeDelayExample` | src/timerEngine.js:50-62 | a 10-second run sampled at 8999 ms, then paused and resumed at once, ends at 10999 ms instead of 10000 ms, and a sample at 10000 ms finds it still Running |
| `TimerEngine.SampleAtEndFinishes` | src/timerEngine.js:27-34 | a sample at or after the end time goes to Finished with 0 remaining and the sampler cleared, and emits the tick `(0, Finished)` followed by exactly one finish |
| `TimerEngine.SamplesFinish` | src/timerEngine.js:25-37 | whatever samples come first, once one is taken at or after the end time the run is Finished and holds exactly one finish, which is its last event, right after the tick `(0, Finished)` |
| `TimerEngine.StartBegins` | src/timerEngine.js:39-48 | with an unchanged clock, `start(n)` begins a new run at the end of the log, ends it `n` seconds ahead, and leaves the engine Running or, for zero, Finished |
| `TimerEngine.StartedRunFinishes` | src/timerEngine.js:25-48 | a countdown of `n` seconds, once sampled at or after its end, is Finished with exactly one finish in its run, right after the tick `(0, Finished)`, whatever samples come first |
| `TimerEngine.SampleOps` | src/timerEngine.js:46 | the interval firings at the given clock values, one per value, in order |
| `TimerEngine.CountdownCompletes` | tests/integration.timer.test.js:54-67 | a fresh engine started for `n` seconds and sampled every 200 ms for `n` seconds plus one interval ends Finished, with exactly one finish, after the tick `(0, Finished)` |
| `TimerEngine.ClearInterval` | src/timerEngine.js:20-23 | the transition of `stopInterval` on the snapshot: the handle is dropped, and a live interval is counted as cleared. Its properties are proved in `StartKeepsInv`, `PauseKeepsInv` and `StopKeepsInv` |
| `TimerEngine.SetInterval` | src/timerEngine.js:46 | the transition of `setInterval(tick, 200)`: the handle is set and one more live interval is counted. `StartKeepsInv` and `ResumeKeepsInv` prove that no other is live at that moment |
| `TimerEngine.AfterTick` | src/timerEngine.js:25-37 | the transition of `tick`. Its properties are stated by `TickKeepsInv`, `GuardsAreNoOps`, `SampleAtEndFinishes` and `SamplesFinish` |
| `TimerEngine.AfterStart` | src/timerEngine.js:39-48 | the transition of `start`. Its properties are stated by `StartKeepsInv`, `StartFromAnyState` and `StartBegins` |
| `TimerEngine.AfterPause` | src/timerEngine.js:50-55 | the transition of `pause`. Its properties are stated by `PauseKeepsInv`, `GuardsAreNoOps` and `PauseResumeKeepsRemainder` |
| `TimerEngine.AfterResume` | src/timerEngine.js:57-63 | the transition of `resume`. Its properties are stated by `ResumeKeepsInv`, `GuardsAreNoOps` and `PauseResumeKeepsRemainder` |
| `TimerEngine.AfterStop` | src/timerEngine.js:65-71 | the transition of `stop`. Its properties are stated by `StopKeepsInv` and `StopFromAnyState` |
| `TimerEngine.Engine.constructor` | src/timerEngine.js:13-18 | a new engine is Idle with zero remaining, no sampler and an empty log, and it satisfies the invariant |
| `TimerEngine.Engine.StopInterval` | src/timerEngine.js:20-23 | clears the interval the handle refers to, if there is one, and drops the handle |
| `TimerEngine.Engine.Tick` | src/timerEngine.js:25-37 | the new state is `AfterTick` of the old one, and the invariant is kept |
| `TimerEngine.Engine.Start` | src/timerEngine.js:39-48 | the new state is `AfterStart` of the old one from any state (the source has no guard), and the invariant is kept |
| `TimerEngine.Engine.Pause` | src/timerEngine.js:50-55 | the new state is `AfterPause` of the old one, and the invariant is kept |
| `TimerEngine.Engine.Resume` | src/timerEngine.js:57-63 | the new state is `AfterResume` of the old one, and the invariant is kept |
| `TimerEngine.Engine.Stop` | src/timerEngine.js:65-71 | the new state is `AfterStop` of the old one, and the invariant is kept |
| `TimerEngine.Engine.Restart` | src/timerEngine.js:73-75 | exactly the transition of `start` |
| `TimerEngine.Engine.GetState` | src/timerEngine.js:77 | returns the state; the sampler is armed exactly when it is Running |
| `TimerEngine.Engine.GetRemainingSec` | src/timerEngine.js:78 | returns the remaining seconds: never negative, 0 once Finished, positive while Running or Paused |
| `TimerEngine.Engine.GetInitialSec` | src/timerEngine.js:79 | returns the initial seconds, never negative |
| `TimeUtils.Clamp` | src/timeUtils.js:1-3 | the result lies in `[lo, hi]` when `lo <= hi`, equals `n` when `n` is already in range, is `lo` below the range and `hi` above it. It is `hi` when `hi < lo`, because the minimum is taken last |
| `TimeUtils.Max` | src/timeUtils.js:2 | `Math.max(a, b)`: the result is at least both arguments and is one of them |
| `TimeUtils.TextOf` | src/timeUtils.js:6 | `String(value ?? '')` for text or a missing value: the text itself, or the empty text |
| `TimeUtils.TrimStart` | src/timeUtils.js:6 | the leading half of `trim`; `TrimStartSpec` states what it removes and keeps |
| `TimeUtils.TrimEnd` | src/timeUtils.js:6 | the trailing half of `trim`; `TrimEndSpec` states what it removes and keeps |
| `TimeUtils.Trim` | src/timeUtils.js:6 | `String.prototype.trim`; `TrimSpec`, `TrimAround` and `TrimIdempotent` state its properties |
| `TimeUtils.TrimStartSpec` | src/timeUtils.js:6 | leading trim removes only whitespace and leaves a suffix that does not start with whitespace |
| `TimeUtils.TrimEndSpec` | src/timeUtils.js:6 | trailing trim removes only whitespace and leaves a prefix that does not end with whitespace |
| `TimeUtils.TrimSpec` | src/timeUtils.js:6 | the trimmed text is an infix of the input with only whitespace around it, and neither of its ends is whitespace |
| `TimeUtils.TrimAround` | src/timeUtils.js:6 | a text whose ends are not whitespace, surrounded by any whitespace, trims back to itself |
| `TimeUtils.TrimIdempotent` | src/timeUtils.js:6 | trimming twice is trimming once |
| `TimeUtils.TrimStartSkips` | src/timeUtils.js:6 | leading whitespace in front of a text that does not start with whitespace is removed, and nothing more |
| `TimeUtils.TrimEndSkips` | src/timeUtils.js:6 | trailing whitespace after a text that does not end with whitespace is removed, and nothing more |
| `TimeUtils.ParseIntStrict` | src/timeUtils.js:5-12 | the result is a number exactly when the trimmed text matches `[+-]?\d+`; missing, blank and non-matching input give none |
| `TimeUtils.IsIntLiteral` | src/timeUtils.js:8 | the regular expression `^[+-]?\d+$`: an optional sign followed by at least one ASCII digit and nothing else |
| `TimeUtils.LiteralValue` | src/timeUtils.js:9-11 | `Math.trunc(Number(s))` of a matching literal: the digits' decimal value, negated after `-`. `SignedDigits` and `ParseLiteral` state it |
| `TimeUtils.IntLiteralTrimmed` | src/timeUtils.js:8 | a text matching `[+-]?\d+` neither starts nor ends with whitespace |
| `TimeUtils.DecimalLiteral` | src/timeUtils.js:8-11 | the decimal text of an integer, with an optional `+` when it is not negative, matches `[+-]?\d+` and has that integer as its value |
| `TimeUtils.ParseLiteral` | src/timeUtils.js:5-11 | any text whose trimmed form is an integer literal parses to that literal's value |
| `TimeUtils.SignedDigits` | src/timeUtils.js:8-11 | digits behind an optional sign match `[+-]?\d+`; the value is that of the digits, negated after `-` |
| `TimeUtils.ParsePadded` | src/timeUtils.js:5-11 | an integer literal with whitespace around it parses to the literal's value, with a leading `+` ignored |
| `TimeUtils.ParseDecimal` | src/timeUtils.js:5-11 | any integer, written in decimal with an optional leading `+` (when it is not negative) and surrounded by whitespace, parses back to itself |
| `TimeUtils.ParseNumber` | src/timeUtils.js:6-11 | an integer below 10^21 in magnitude, passed as input and read through `String(n)`, parses back to itself |
| `TimeUtils.ParseBlankExamples` | tests/timeUtils.test.js:5-10 | `''`, `'   '` and a missing value give none |
| `TimeUtils.ParseSignedExamples` | tests/timeUtils.test.js:12-16 | `' 5 '` gives 5, `'-3'` gives -3, `'+7'` gives 7 |
| `TimeUtils.ParseRejects` | src/timeUtils.js:8 | a text without whitespace at its ends that does not match `[+-]?\d+` gives none |
| `TimeUtils.ParseRejectExamples` | tests/timeUtils.test.js:18-23 | `'5.5'`, `'1e3'`, `'abc'` and `'12 3'` give none |
| `TimeUtils.NormalizeTime` | src/timeUtils.js:14-39 | `ok` exactly when there is no error. A failure has `m = s = totalSec = 0`. On success with `maxMinutes >= 0`: `0 <= s < 60`, `0 <= m <= maxMinutes` and `totalSec = m * 60 + s` |
| `TimeUtils.InvalidIff` | src/timeUtils.js:20-25 | a field is rejected exactly when its trimmed text is non-empty and does not parse |
| `TimeUtils.NormalizeErrors` | src/timeUtils.js:20-25 | the error is `minutes` exactly when the minutes text is invalid, whatever the seconds. It is `seconds` exactly when the minutes are acceptable and the seconds are not. Success means both fields are acceptable |
| `TimeUtils.Carry` | src/timeUtils.js:27-33 | after negative clamping, carrying seconds into minutes keeps `m * 60 + s` and leaves seconds below 60 and minutes non-negative, so the pair is the unique such split of the total. Seconds already below 60 are left as they are |
| `TimeUtils.NormalizeFields` | src/timeUtils.js:14-38 | any two acceptable fields (blank, or an integer literal with whitespace around it) succeed. A blank field counts as 0. The minutes are the carried minutes clamped to the maximum, the seconds are the carried seconds, and `totalSec = m * 60 + s` |
| `TimeUtils.NormalizeBlank` | src/timeUtils.js:17-38 | two blank fields give `ok` with `m = s = totalSec = 0` |
| `TimeUtils.NormalizeNumbers` | src/timeUtils.js:27-38 | integer inputs below 10^21 in magnitude never fail; the minutes are the carried minutes clamped to the maximum, and the seconds are the carried seconds |
| `TimeUtils.NormalizeExact` | src/timeUtils.js:27-36 | for non-negative `m`, `s` with `m * 60 + s <= maxMinutes * 60 + 59`, the total is exactly `m * 60 + s` |
| `TimeUtils.NormalizeNegative` | src/timeUtils.js:27-28 | a negative field is clamped to 0 and is never an error |
| `TimeUtils.NormalizeNumberExamples` | tests/timeUtils.test.js:27-53 | (0, 60), (0, 61), (0, 3599), (-5, -1) and (2000, 0) normalise to (1, 0, 60), (1, 1, 61), (59, 59, 3599), (0, 0, 0) and (999, 0, 59940) |
| `TimeUtils.NormalizeTextExamples` | tests/timeUtils.test.js:55-70 | `('abc', '10')` fails on minutes, `('10', 'abc')` on seconds, and `('', '')` succeeds with total 0 |
| `TimeUtils.Pad2` | src/timeUtils.js:46 | the padded field is digits only, at least two of them, and reads back as the number. It is exactly two below 100 and has no leading zero when longer |
| `TimeUtils.Pad2Examples` | src/timeUtils.js:46 | 0, 1 and 10 pad to `00`, `01` and `10` |
| `TimeUtils.SplitHMS` | src/timeUtils.js:42-45 | dividing by 3600 and 60 gives hours, minutes below 60 and seconds below 60 that recombine to the duration |
| `TimeUtils.FormatHMS` | src/timeUtils.js:41-48 | the text is `HH:MM:SS`: minutes and seconds have two digits each and are below 60. The hours field is two digits below 100 hours and otherwise has no leading zero. The three fields read back recombine to `max(0, input)` |
| `TimeUtils.JoinFields` | src/timeUtils.js:47 | padded hours, minutes and seconds joined by colons form the `HH:MM:SS` text of their total |
| `TimeUtils.FieldSlices` | src/timeUtils.js:47 | in `a:b:c` with two-character `b` and `c`, the three fields sit at fixed offsets from the end |
| `TimeUtils.FormatHMSNegative` | src/timeUtils.js:42 | any duration of zero or less shows as `00:00:00` |
| `TimeUtils.FormatHMSExamples` | tests/timeUtils.test.js:79-89 | 0, 70, 3600, 3661 and -1 format as `00:00:00`, `00:01:10`, `01:00:00`, `01:01:01` and `00:00:00` |
| `TimeUtils.EscapeChar` | src/timeUtils.js:52-54 | a character's replacement holds none of `< > " ' \``, and a character outside the six specials maps to itself |
| `TimeUtils.EscapeText` | src/timeUtils.js:52-54 | the escaped text holds none of `< > " ' \`` |
| `TimeUtils.EscapeTextOne` | src/timeUtils.js:52-54 | escaping a single character gives that character's replacement |
| `TimeUtils.EscapeTextAppend` | src/timeUtils.js:52-54 | escaping distributes over concatenation. With `EscapeTextOne` and `EscapeChar`, this fixes the output of every text: each of the six specials, `&` included, becomes its entity, and every other character is kept |
| `TimeUtils.EscapeHtml` | src/timeUtils.js:50-55 | `escapeHtml` output holds none of `< > " ' \``. A missing argument gives the empty text. Decoding the six entities gives back the argument |
| `TimeUtils.EscapeAmpersandExample` | src/timeUtils.js:52-54 | `&copy;` escapes to `&amp;copy;`: an ampersand is escaped even when an entity name follows it |
| `TimeUtils.EscapeMarkupExample` | src/timeUtils.js:52-54 | `<b>` escapes to `&lt;b&gt;` |
| `TimeUtils.EscapeTextIdentity` | src/timeUtils.js:52 | text without any of `& < > " ' \`` is returned unchanged |
| `TimeUtils.UnescapeEntity` | src/timeUtils.js:53 | each of the six entities decodes back to the character it replaced |
| `TimeUtils.UnescapePlain` | src/timeUtils.js:52 | a character outside the six specials decodes to itself |
| `TimeUtils.UnescapeOne` | src/timeUtils.js:52-54 | decoding the replacement of one character, whatever it is, recovers that character |
| `TimeUtils.UnescapeEscape` | src/timeUtils.js:52-54 | decoding the six entities recovers the original text, so escaping loses nothing |
| `TimeUtils.NatDecimal` | src/timeUtils.js:46 | `String(n)` for `0 <= n < 10^21` is a non-empty digit string without a leading zero that reads back as `n`, one digit below 10 and two from 10 to 99 |
| `TimeUtils.Decimal` | src/timeUtils.js:6 | `String(n)` for an integer below 10^21 in magnitude: a `-` for negatives, then the digits of `NatDecimal`. `DecimalLiteral` and `ParseNumber` state that it parses back to `n` |
| `Storage.SanitizePreset` | src/storage.js:19-26 | every sanitised entry has `0 <= durationSec <= 999 * 60 + 59` and `0 <= volume <= 100` |
| `Storage.SanitizeFields` | src/storage.js:19-26 | each field is the stored value when present. Otherwise it is the default: the generated id, the empty name, `false` for the flags, 0 for the duration and 50 for the volume. A number inside its range is kept, and one outside it moves to the nearer bound |
| `Storage.SanitizeExamples` | src/storage.js:19-26 | a duration of 100000 becomes 59999, a volume of 250 becomes 100, and negative values become 0. An entry with only a name gets every default |
| `Storage.Objects` | src/storage.js:18 | the kept entries are objects from the input, and every object of the input is kept |
| `Storage.ObjectsConcat` | src/storage.js:18 | the filter distributes over concatenation, so it keeps the objects in order, repeats included |
| `Storage.ObjectsOne` | src/storage.js:18 | a single entry is kept exactly when it is an object |
| `Storage.LoadPresets` | src/storage.js:12-27 | nothing is loaded from a missing or unreadable item. Otherwise the `i`-th preset is the sanitised `i`-th object entry, with `newId(i)` as its fallback id, and every preset is in range |
| `Storage.LoadPresetsExample` | src/storage.js:12-27 | a non-object between two equal entries is skipped, and both entries are kept, each with the fallback id of its own position |
| `Storage.NonObjectsDropped` | src/storage.js:18 | a list of non-objects loads as empty |
| `Storage.SaveLoadPresets` | tests/storage.test.js:21-25 | presets in range that were saved load back unchanged |
| `Storage.ObjectsOfStored` | src/storage.js:18 | saved presets are all objects, so none is filtered out |
| `Storage.StoredAll` | src/storage.js:29-31 | the saved form of a list holds one object per preset, in order |
| `Storage.LoadLastSettings` | src/storage.js:33-46 | settings are loaded exactly when an object was stored; minutes lie in `[0, 999]`, seconds in `[0, 59]` and volume in `[0, 100]` |
| `Storage.LoadSettingsFields` | src/storage.js:38-45 | each loaded setting is the stored value when present. Otherwise it is the default: the empty name, `false` for the flags, 0 minutes and seconds, and volume 50. Minutes, seconds and volume outside their ranges move to the nearer bound |
| `Storage.SaveLoadSettings` | src/storage.js:38-45 | settings in range that were saved load back unchanged |
| `Storage.FirstNameMatch` | src/storage.js:55 | the index is -1 or an entry whose trimmed name matches, and no earlier entry (no entry at all for -1) matches |
| `Storage.FindIndex` | src/storage.js:55 | the linear search returns the first index whose trimmed name matches, or -1 |
| `Storage.Upserted` | src/storage.js:52-61 | the list `upsertPreset` returns. `UpsertReplaces`, `UpsertPrepends`, `UpsertWritesTrimmed` and `UpsertIdempotent` state its properties |
| `Storage.FirstNameMatchUnique` | src/storage.js:55 | the first match is the only index with those two properties |
| `Storage.UpsertPreset` | src/storage.js:52-61 | returns a fresh array holding `Upserted(presets, preset)`, and the input array is unchanged |
| `Storage.UpsertReplaces` | src/storage.js:55-58 | with a matching entry, the length stays the same and only the first match changes. It takes the new preset, its id included, under the trimmed name |
| `Storage.UpsertPrepends` | src/storage.js:60 | without a matching entry, the result is the new preset (name trimmed) followed by the unchanged list |
| `Storage.UpsertWritesTrimmed` | src/storage.js:53-60 | the written entry has a trimmed name and is the first match for that name in the result |
| `Storage.UpsertIdempotent` | src/storage.js:52-61 | upserting the same preset twice gives the same list as once |
| `Storage.DeletePreset` | src/storage.js:63-65 | no entry with the id survives, and the list does not grow |
| `Storage.DeleteMembers` | src/storage.js:64 | an entry survives exactly when it was in the list and its id differs |
| `Storage.DeleteConcat` | src/storage.js:64 | deleting distributes over concatenation, so the survivors keep their order |
| `Storage.DeleteAbsent` | src/storage.js:64 | a list without the id is returned unchanged |
| `Storage.DeleteIdempotent` | src/storage.js:63-65 | deleting twice is deleting once |

## Left out

- `src/app.js` is not part of this model. It is DOM rendering, event wiring, the Web Audio beep, message timers and storage probing.
- `setInterval` / `clearInterval` / `Date.now()`. The interval is the flag `armed` plus a ghost count of live intervals, and its firing is the environment calling `Tick(now)`. The 200 ms period is not a parameter of the engine; `CountdownCompletes` samples every 200 ms as the tests do.
- Re-entrant callbacks. The model records `onTick` / `onFinish` calls in a log and does not run caller code, so a callback that calls back into the engine during `start` or `tick` is not modelled. Absent callbacks (`onTick?.()`) are logged all the same.
- `Engine.Start` and `Engine.Resume` take the clock twice, as two parameters. The lemmas about an immediate tick assume that both readings are equal.
- Floating point. All numbers are mathematical integers. So the following are not modelled:
  - `Math.trunc` of fractions in `start`, `stop` and `formatHMS`;
  - `Number(x) || 0` turning `NaN` into 0;
  - the `Number.isFinite` branch of `parseIntStrict` (literals beyond about 309 digits);
  - rounding of integers above 2^53;
  - exponent notation: from 10^21 upward `String(n)` gives text such as `1e+21`, which `parseIntStrict` rejects. `Decimal`, `ParseNumber`, `NormalizeNumbers`, `NormalizeExact`, `NormalizeNegative` and `NormalizeNumberExamples` therefore describe the source only for numbers below 10^21 in magnitude;
  - the distinction between `-0` and `0`.
- Decimal: is `String(n)` only for integers below 10^21 in magnitude, because larger ones are written in exponent notation (see the floating-point item). The round-trip lemmas built on it hold in the model for every integer but describe the source only below that bound.
- FormatHMS: takes an integer; the `?? 0` default for a missing argument is not modelled.
- EscapeHtml: takes text or nothing, as `src/app.js` always passes text. `String(str)` of other kinds of value is not modelled.
- ParseIntStrict: takes text or nothing. `String(x)` of other kinds of value is not modelled except integers, which are passed as `Decimal(n)`.
- Trim: the whitespace set is that of ECMAScript with the current Unicode Zs list. An engine built on an older Unicode version may differ.
- Text is a sequence of Unicode scalar values, while JavaScript strings are UTF-16 code units. A lone surrogate cannot be represented, so text holding one is not modelled.
- UpsertPreset: the incoming preset is a complete record, as `src/app.js` always builds it. The object spread that would keep an old entry's fields missing from a partial preset is not modelled.
- LoadPresets, LoadLastSettings: these take the parsed value, so `getItem`, `JSON.parse` and `safeJsonParse` are not modelled.
  - A missing item, unparsable text and, for presets, a non-array all arrive as `None`.
  - The identifier `crypto.randomUUID()` supplies for an entry without one is a parameter.
  - `String(...)` of non-string ids and names is not modelled, and neither is `!!` of non-boolean flags.
  - The `Number(...) || 0` coercion of stored fields that are not numbers is not modelled either. For example, a stored `"durationSec": "180"` loads as 180, but a `Parsed` field holds only a number or nothing.
  - An array entry counts as an object with none of the fields.
- `savePresets`, `saveLastSettings`, `seedData`, `LS_KEYS` and `safeJsonParse` are writes to `localStorage` and JSON I/O. They are not modelled; saving appears only as the parsed form `Stored` in the round-trip lemmas.
