# Breathing analysis of a vibration-sensor app, in Dafny

This project models the signal-processing core of a React Native app. The app
reads a phone's accelerometer ten times a second and turns its y-axis
component (`data.y`) into a breathing verdict. On every sample the app does these steps:

- it shifts four fixed-length buffers by one: raw samples `y`, moving average
  `yMA`, deviation `yDeviation` and `timestamp`;
- it smooths the raw buffer with a trailing moving average;
- it finds local maxima and minima of the smoothed signal with a windowed
  extremum rule, a threshold and a "patience" spacing rule;
- it pairs adjacent extrema into inhale (max→min) and exhale (min→max)
  intervals;
- it classifies the last three breaths as calculating, or as normal or deep,
  each stable or unstable.

The model also covers the older copy of the same pipeline in `_backup/App.js`,
whose deep-breath rule differs, and the session screen's `MM:SS` timer
formatter. That file's initial state (lines 23-36), `utils` (40-58),
`detectPeaks` (63-91), `calculateIntervals` (93-135) and all of
`determineBreathingType` except its deep rule (137-166) are the same code as the current
modules, so the members listed below for those modules describe them too;
only its deep rule and its updater get members of their own.

Files and modules:

- `types.dfy` (`Types`): the record shapes as datatypes. The tuning constants
  are one `Config` value. The deep-exhale condition is a parameter
  (`ExhaleRule`) with three cases:
  - `AtMost(4)` for the older revision;
  - `AtLeast(b)` for the evident intent of the current one;
  - `UndefinedBound` for the current revision as written.
- `utils.dfy` (`Utils`): `calculateMA`, `calculateRange` and the population
  variance behind `calculateStandardDeviation`.
- `breathing_analysis.dfy` (`BreathingAnalysis`):
  - `detectPeaks` and `calculateIntervals` are loop methods, each proved equal
    to a recursive specification function;
  - `determineBreathingType` is a function;
  - the scan, the merge and the verdict each have lemmas.
- `breathing_data.dfy` (`BreathingData`): the initial state, the per-sample
  `setHistory` updater of `hooks/useBreathingData.ts` as a pure function, and
  whole sessions as repeated updates.
- `backup_app.dfy` (`BackupApp`): the older updater, which pushes onto freshly
  sliced copies. It is a method proved to end in the same state as the pure
  updater under the older constants. The module also holds the older deep
  rule.
- `session_screen.dfy` (`SessionScreen`): `formatTime`, with JavaScript's
  `String`, `padStart` and sign-keeping `%` written out. A reader for the
  text is the partner of the round trip.

Modelling choices:

- Sample values are `real`.
- Timestamps are integer milliseconds.
- An interval's length is `(end - start) / 1000` seconds.
- The sample and the current time are parameters of the update.
- The merged, sorted extrema in `calculateIntervals` are only ever compared
  by timestamp, so the model sorts the timestamps alone. The model's sort is
  an insertion sort, proved sorted and a permutation.
- `Math.sqrt(v) < t` is modelled as `t > 0 && v < t * t`. This is exact for
  real numbers.

Two behaviours of the code a reader might not expect, which the model keeps:

- Maxima and minima are not disjoint. An index whose whole window is
  constant, with a value above the threshold, qualifies for both
  (`ConstantWindowQualifiesBoth`, `PlateauExample`).
- An interval can have length zero. A maximum and a minimum with one
  timestamp give a 0-second inhale (`SharedTimestampExample`).

## Model

| member | source | states |
|---|---|---|
| Utils.LastN | hooks/metrics/utils.ts:4 | `slice(-n)`: the last `n` elements; the whole sequence when `n` is 0 or at least its length |
| Utils.CalculateMA | hooks/metrics/utils.ts:3-6 | the sum of the last `window` samples over `window`; once the buffer holds at least `window` samples it lies between the least and the greatest of them |
| Utils.SeqMax | hooks/metrics/utils.ts:12 | `Math.max(...s)` of a non-empty list is one of its elements and no element exceeds it |
| Utils.SeqMin | hooks/metrics/utils.ts:11 | `Math.min(...s)` of a non-empty list is one of its elements and no element is below it |
| Utils.MAOfConstantTail | hooks/metrics/utils.ts:3-6 | the moving average of a buffer whose last `window` samples all equal `c` is `c` |
| Utils.MAShortBuffer | hooks/metrics/utils.ts:3-6 | with fewer than `window` samples the sum is still divided by `window`, so `[1]` with window 2 averages to 0.5 |
| Utils.CalculateRange | hooks/metrics/utils.ts:8-15 | no data gives `{-1, 1}`; otherwise `min <= max` and every element lies within the range |
| Utils.RangeMargins | hooks/metrics/utils.ts:11-14 | the range is the least element `lo` and the greatest element `hi` of the data, widened by a tenth of `hi - lo` on each side |
| Utils.RangeOfConstant | hooks/metrics/utils.ts:13-14 | a constant buffer `c` has range `{c, c}`: zero margin |
| Utils.SumSquaresNonNegative | hooks/metrics/utils.ts:19 | the sum of squared deviations from the mean is never negative |
| Utils.Variance | hooks/metrics/utils.ts:17-21 | the radicand of `calculateStandardDeviation`, the mean squared deviation, is never negative; `StdDevBelow` compares its square root with a threshold |
| Utils.VarianceOfConstant | hooks/metrics/utils.ts:17-21 | the variance under the square root is 0 when every value equals the mean |
| BreathingAnalysis.DetectPeaks | hooks/metrics/breathingAnalysis.ts:7-35 | the loop returns exactly the maxima and minima of the scan specification, which the lemmas below characterise |
| BreathingAnalysis.WindowExtremumIsMathMax | hooks/metrics/breathingAnalysis.ts:14-19 | the window test used by the model, "no value of `data[i-P..i+P]` is above `data[i]`" (below, for minima), holds exactly when `data[i] === Math.max(...windowData)` (`Math.min`) |
| BreathingAnalysis.CandidateAt | hooks/metrics/breathingAnalysis.ts:13-28 | an index is a candidate exactly when its whole window fits (`P <= i < len - P`) and it passes the window and threshold tests |
| BreathingAnalysis.PeaksOf | hooks/metrics/breathingAnalysis.ts:7-35 | both lists hold only extrema whose whole window fits, which pass the window and threshold tests and record their own value and timestamp; each list is in increasing index order, at least `P` apart |
| BreathingAnalysis.ScanBounds | hooks/metrics/breathingAnalysis.ts:13-31 | every accepted index lies in the visited range and is a candidate, and its record is `{data[i], timestamps[i], i}` |
| BreathingAnalysis.SpacedAppend | hooks/metrics/breathingAnalysis.ts:20-23 | pushing an index at least `P` past the last one keeps the list increasing and `P`-spaced |
| BreathingAnalysis.ScanSpaced | hooks/metrics/breathingAnalysis.ts:10-30 | accepted indices strictly increase and any two are at least `P` apart |
| BreathingAnalysis.ScanPrefix | hooks/metrics/breathingAnalysis.ts:13-32 | scanning further only appends to the accepted list |
| BreathingAnalysis.ScanAcceptedIf | hooks/metrics/breathingAnalysis.ts:19-30 | a candidate at least `P` past every earlier accepted index is accepted; so the first candidate always is, because the marker starts at `-P` |
| BreathingAnalysis.ScanExact | hooks/metrics/breathingAnalysis.ts:19-30 | an index is accepted if and only if it is a candidate and lies at least `P` past every earlier accepted index |
| BreathingAnalysis.AcceptedSound | hooks/metrics/breathingAnalysis.ts:13-31 | every reported extremum has its whole window inside the buffer, is the maximum (or minimum) of that window, exceeds the threshold in magnitude and records the value and timestamp at its index; reported indices increase, at least `P` apart |
| BreathingAnalysis.AcceptedExact | hooks/metrics/breathingAnalysis.ts:13-31 | an index whose window fits is reported if and only if it passes the window and threshold tests and lies at least `P` past every earlier reported index |
| BreathingAnalysis.ConstantWindowQualifiesBoth | hooks/metrics/breathingAnalysis.ts:19-31 | the max and min tests are independent: on a constant window above the threshold `data[i]` is both `Math.max` and `Math.min` of the window, so the index qualifies for both |
| BreathingAnalysis.PlateauExample | hooks/metrics/breathingAnalysis.ts:19-24 | on a 7-sample plateau with `P = 2`, indices 2 and 4 are taken and index 3 is skipped by the patience rule; both lists get the same peaks |
| BreathingAnalysis.PatienceSkips | hooks/metrics/breathingAnalysis.ts:19-24 | with `P = 2` and candidates at 2 and 4, the scan takes 2 and 4 and skips 3, which is only one step after 2 |
| BreathingAnalysis.Span | hooks/metrics/breathingAnalysis.ts:67-77 | an interval record keeps its two endpoints and is non-negative when they are in order |
| BreathingAnalysis.MaxToMaxEntries | hooks/metrics/breathingAnalysis.ts:47-53 | `maxToMax` has `max(0, n-1)` entries; entry `k-1` is `(t[k]-t[k-1])/1000` from `t[k-1]` to `t[k]` |
| BreathingAnalysis.Insert | hooks/metrics/breathingAnalysis.ts:44 | inserting into a sorted list keeps it sorted, adds exactly the new value, and puts the smaller of the value and the old head first |
| BreathingAnalysis.SortInts | hooks/metrics/breathingAnalysis.ts:44 | the sort of the merged timestamps is sorted and a permutation of its input |
| BreathingAnalysis.Merged | hooks/metrics/breathingAnalysis.ts:44 | the merge is a permutation of all extrema timestamps, maxima and minima together, sorted ascending |
| BreathingAnalysis.IntervalsOf | hooks/metrics/breathingAnalysis.ts:37-82 | one max-to-max interval per pair of consecutive maxima; inhales and exhales together at most one per adjacent pair of the merge; neither without minima |
| BreathingAnalysis.CalculateIntervals | hooks/metrics/breathingAnalysis.ts:37-82 | the two loops return exactly the interval specification, which the lemmas below characterise |
| BreathingAnalysis.PairsCount | hooks/metrics/breathingAnalysis.ts:56-79 | each adjacent pair gives at most one interval, so `|maxToMin| + |minToMax| <= n - 1` |
| BreathingAnalysis.PairsFromPairs | hooks/metrics/breathingAnalysis.ts:55-79 | every entry pushed by the pair loop is `{(next - current) / 1000, current, next}` for an adjacent pair whose classification is the list's own kind |
| BreathingAnalysis.PairsEndpoints | hooks/metrics/breathingAnalysis.ts:55-79 | every inhale is the interval of an adjacent pair of the merge classified max→min, every exhale of one classified min→max; so an inhale runs from a max timestamp to a min timestamp and an exhale the reverse, non-negative on sorted input |
| BreathingAnalysis.PairEndpoints | hooks/metrics/breathingAnalysis.ts:60-73 | the interval of a pair classified inhale starts at a maximum's timestamp and ends at a minimum's, an exhale the reverse; forwards in time on a sorted merge |
| BreathingAnalysis.PairsComplete | hooks/metrics/breathingAnalysis.ts:55-79 | conversely, every max→min adjacent pair is pushed as an inhale, and every min→max pair that is not also max→min (the `else if`) as an exhale |
| BreathingAnalysis.PairsExactly | hooks/metrics/breathingAnalysis.ts:55-79 | the intervals the pair loop pushes for one kind are exactly the spans of the adjacent pairs classified as that kind, in both directions |
| BreathingAnalysis.PairsChronological | hooks/metrics/breathingAnalysis.ts:55-79 | on a sorted merge the loop pushes each list in time order: every entry ends no later than any later entry starts, and all end by the last timestamp the loop reached, so the tail of a list is its most recent breaths |
| BreathingAnalysis.SameKindPairSkipped | hooks/metrics/breathingAnalysis.ts:61-78 | a pair in which neither timestamp is a minimum's (max–max) is skipped, and so is one in which neither is a maximum's (min–min) |
| BreathingAnalysis.NoMinimaNoTransitions | hooks/metrics/breathingAnalysis.ts:56-79 | without minima there are no inhales and no exhales |
| BreathingAnalysis.IntervalsProperties | hooks/metrics/breathingAnalysis.ts:37-82 | the combined result: the `maxToMax` entries; an interval is an inhale (exhale) if and only if it is `{(t[j+1] - t[j]) / 1000, t[j], t[j+1]}` for an adjacent pair of the merge classified max→min (min→max); both lists in time order, each entry ending no later than the next starts; the pair-count bound; and the endpoint kinds and signs of every inhale and exhale |
| BreathingAnalysis.SharedTimestampExample | hooks/metrics/breathingAnalysis.ts:44-79 | a maximum and a minimum with one timestamp give one 0-second inhale and nothing else |
| BreathingAnalysis.AlternatingExample | hooks/metrics/breathingAnalysis.ts:37-82 | alternating extrema `max a < min b < max c < min d` give inhales `a→b`, `c→d`, exhale `b→c` and one max-to-max span `a→c` |
| BreathingAnalysis.Durations | hooks/metrics/breathingAnalysis.ts:98-101 | the `.map(interval => interval.interval)` of the recent entries |
| BreathingAnalysis.DetermineBreathingType | hooks/metrics/breathingAnalysis.ts:84-130 | the result is the "calculating" sentinel `{calculating, 0, ''}` if and only if fewer than `RECENT_BREATHS` inhales or exhales exist, and it is never `unknown` |
| BreathingAnalysis.RecentAverageOfConstant | hooks/metrics/breathingAnalysis.ts:98-107 | the average over the last `RECENT_BREATHS` entries of a list whose tail is constant `c` is `c` |
| BreathingAnalysis.RecentSteady | hooks/metrics/breathingAnalysis.ts:98-114 | a series whose last `RECENT_BREATHS` durations all equal `c` averages `c`, its variance around `c` is 0, and it is stable under the threshold 0.4 |
| BreathingAnalysis.RecentTailsDecide | hooks/metrics/breathingAnalysis.ts:84-130 | once enough inhales and exhales exist, two interval sets with the same last `RECENT_BREATHS` inhales and exhales get the same verdict, period and detail |
| BreathingAnalysis.SteadyBreathingIsStable | hooks/metrics/breathingAnalysis.ts:98-127 | constant recent inhales `ci` and exhales `ce` are stable, with period `ci + ce` and those averages as detail |
| BreathingAnalysis.UnevenBreathingIsUnstable | hooks/metrics/breathingAnalysis.ts:109-114 | recent inhales 2, 6, 2 s (spread about 1.9 s) are unstable |
| BreathingAnalysis.CurrentNeverDeep | hooks/metrics/breathingAnalysis.ts:118-119 | as written the exhale bound is undefined, so steady breathing is always normal, however long the inhales and exhales |
| BreathingAnalysis.NeverDeepAsWritten | hooks/metrics/breathingAnalysis.ts:118-119 | as written, no set of intervals at all is classified deep: the comparison with the undefined exhale bound is always false |
| BreathingAnalysis.IntendedDetectsDeep | hooks/metrics/breathingAnalysis.ts:118-119 | with a defined minimum exhale, steady inhales of at least 3 s and exhales at or above that minimum are deep and stable |
| BreathingData.Filled | hooks/metrics/initialState.ts:7-9 | `Array(n).fill(v)` has `n` entries, all `v` |
| BreathingData.InitialStateShape | hooks/metrics/initialState.ts:6-19 | `MAX_DATA_POINTS` zeros in each value buffer; one creation time in every timestamp slot; no extrema or intervals; `unknown`, no detail, period 0; all ranges `{-1, 1}` |
| BreathingData.DropOldest | hooks/useBreathingData.ts:23 | `slice(1)` drops the first element, and gives nothing on an empty buffer |
| BreathingData.Shift | hooks/useBreathingData.ts:23-30 | `[...s.slice(1), x]` keeps a non-empty length, moves every element one place forward and puts `x` last |
| BreathingData.UpdateShifts | hooks/useBreathingData.ts:23-30 | an update keeps the four buffers at their common length; it drops each oldest element, moves the rest forward, and appends the sample and `now` |
| BreathingData.UpdateSmoothing | hooks/useBreathingData.ts:24-28 | the appended average is `calculateMA` of the new raw buffer, which includes the sample; the appended deviation is the sample minus it |
| BreathingData.UpdateRecomputes | hooks/useBreathingData.ts:32-46 | peaks, intervals, verdict, detail and period are recomputed from the new smoothed buffer and timestamps alone |
| BreathingData.UpdateIgnoresDerived | hooks/useBreathingData.ts:20-50 | the previous peaks, intervals, verdict and ranges play no part: states with equal buffers update alike |
| BreathingData.UpdateRanges | hooks/useBreathingData.ts:47-49 | each of the three ranges is `calculateRange` of its new buffer, and so encloses that buffer |
| BreathingData.Run | hooks/useBreathingData.ts:19-51 | over a session of updates the four buffers keep one common, unchanged length |
| BreathingData.RunWindow | hooks/useBreathingData.ts:19-51 | after a session the raw buffer and the timestamps are sliding windows: the last `N` elements of the old buffer followed by every sample (every time) |
| BackupApp.BackupUpdate | _backup/App.js:338-368 | the older updater, slicing and then pushing onto the copies, ends in exactly the current updater's state under the older constants, and keeps all four buffers at length N |
| BackupApp.BackupDepthRule | _backup/App.js:167-172 | under the older rule, steady breathing with inhales of at least 3 s is deep exactly when exhales last at most 4 s, and is stable |
| BackupApp.BackupShortInhaleNormal | _backup/App.js:167-172 | under the older rule, inhales shorter than 3 s are normal whatever the exhales |
| SessionScreen.Rem60 | components/SessionScreen.tsx:28 | JavaScript's `seconds % 60`: in 0..59 for a non-negative count, in -59..0 for a negative one, and `seconds` minus it is a multiple of 60 |
| SessionScreen.NumberString | components/SessionScreen.tsx:29 | `String(n)` is the shortest decimal of `n`: it reads back as `n`, has no leading zero, and has a leading minus exactly when `n` is negative |
| SessionScreen.PadStart | components/SessionScreen.tsx:29 | `padStart(2, '0')` pads with zeros up to two characters and never truncates |
| SessionScreen.FormatTimeFields | components/SessionScreen.tsx:26-30 | for a non-negative count the text is "M…M:SS"; the minutes field reads as `floor(seconds / 60)` and has no leading zero beyond the padding; the seconds field is exactly two digits and reads as `seconds % 60` |
| SessionScreen.FormatTimeRoundTrip | components/SessionScreen.tsx:26-30 | reading the text back gives 60 · minutes + seconds = the original count |
| SessionScreen.WholeMinutes | components/SessionScreen.tsx:26-30 | a whole number of minutes from 10 to 99 shows as its two digits then ":00" |
| SessionScreen.InitialSessionTime | components/SessionScreen.tsx:12-30 | the initial 25 · 60 seconds show as "25:00" |
| SessionScreen.NegativeSeconds | components/SessionScreen.tsx:26-30 | a negative count is not clamped: the text starts with '-' and is not a valid clock |
| SessionScreen.MinusOneSecond | components/SessionScreen.tsx:26-30 | -1 s shows as "-1:-1" |

## Left out

- Sensor I/O is not modelled: the accelerometer subscription, `setUpdateInterval` and listener removal. The sample value and `Date.now()` are parameters of the update.
- React state plumbing is not modelled. The update is the pure function handed to `setHistory`.
- Rendering is not modelled: graphs, screens, the breathing circle and the graph drawing in `_backup/App.js`.
- Audio is not modelled.
- The session countdown (`setInterval`) is not modelled.
- Floating point is not modelled. Values are exact reals, so rounding and NaN are absent.
- The NaN/null filter of `calculateRange` is absent for the same reason.
- The verdict labels are abstracted. The strings ('計算中...', 'calculating...', '深呼吸 (安定)', …) become the `BreathingType` constructors.
- The detail string is abstracted. The `toFixed(1)` detail text is kept as the two averages it prints.
- Utils.VarianceOfConstant: only "all values equal the mean ⇒ variance 0" is proved. The converse, "variance 0 ⇒ all values equal the mean", is not proved. It needs reasoning about products of unknown reals, which the verifier's arithmetic does not do.
- Utils.CalculateMA: requires `window >= 1`. With window 0 the source divides by zero and returns ±Infinity or NaN, which reals cannot express. The source always passes `MA_WINDOW` = 50.
- BreathingAnalysis.DetermineBreathingType: requires `RECENT_BREATHS >= 1`, for the same reason (division by zero). The source uses 3.
- BreathingAnalysis.RecentSteady: stated for the source's threshold 0.4 only, for the reason below.
- BreathingAnalysis.SteadyBreathingIsStable: the stability conclusion is stated for the source's threshold 0.4 only. Comparing a symbolic threshold's square needs products of unknown reals.
- BreathingAnalysis.UnevenBreathingIsUnstable: stated for the source's threshold 0.4 only, for the same reason.
- BreathingAnalysis.DetectPeaks: requires as many timestamps as samples. Both callers pass buffers of equal length. With fewer timestamps the source would record `undefined` timestamps, which the model does not represent.
- The merge's sort is modelled on timestamps only. Only timestamps of the merged extrema are ever read, so the order among equal timestamps does not matter.
- SessionScreen.FormatTimeFields: the count is a whole number. The source accepts any number, but the countdown only produces whole seconds.

## Findings

| source | as written | input that shows it | evidently intended | confidence | as-written member | corrected member |
|---|---|---|---|---|---|---|
| hooks/metrics/breathingAnalysis.ts:118-119 | the deep rule compares `avgExhale >= DEEP_EXHALE_MIN`, but hooks/metrics/constants.ts:12-17 defines no `DEEP_EXHALE_MIN`; the comparison is with `undefined`, always false, so deep breathing is never reported | three steady breaths with 3 s inhales and 5 s exhales: classified normal and stable | a defined lower bound on the average exhale, so that long steady breaths are classified deep | not executed | BreathingAnalysis.CurrentNeverDeep | BreathingAnalysis.IntendedDetectsDeep |
