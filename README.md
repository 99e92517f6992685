# readphone in Dafny

A model of `readphone.py`, a script that reads an AndroSensor log (one row
per sensor frame, fixed column offsets), classifies every frame by four
threshold tests, filters the frames into nested categories and computes a
few summary figures and two per-frame series for plotting.

- `sequences.dfy` (module `Sequences`): the list operations the script is
  built from. `Filter` is a list comprehension with an `if`. The module also
  defines order-preserving subsequences (an embedding by strictly increasing
  indices) and sums, with their lemmas.
- `readphone.dfy` (module `ReadPhone`):
  - the column offsets and thresholds;
  - a `Frame` type (a row of at least 30 readings);
  - the `column` extraction, as a loop method and as a function;
  - the four classifiers;
  - the low-light → pocket → noisy chain and the active frames;
  - the `MOVEMENT_SUMS` and `ACTIVE` loops as methods;
  - the time axis, mean illuminance, elapsed time, active time and active
    percentage.

The log `NUM` is an input sequence of frames. Readings are exact `real`s.

`NOISY` (line 81) filters the pocket frames, not the whole log, so the
audible category is pocket ∩ audible.

## Model

| member | source | states |
|---|---|---|
| `ReadPhone.Column` | readphone.py:32-37 | the appended list has one entry per row, and entry i is row i's entry at the given column |
| `ReadPhone.ColumnOf` | readphone.py:32-37 | the same extraction as a value: length and pointwise contents |
| `ReadPhone.ThresholdsAreStrict` | readphone.py:39-56 | lux exactly 200 is not low light; proximity exactly 5 is not close; exactly 60 dB is not audible; a movement sum of exactly 1 is not active |
| `ReadPhone.IsLowLight` | readphone.py:39-42 | a frame is low-light exactly when its lux reading is strictly below 200 |
| `ReadPhone.IsClose` | readphone.py:44-47 | a frame is close exactly when its proximity reading is strictly below 5 |
| `ReadPhone.IsAudible` | readphone.py:49-51 | a frame is audible exactly when its sound level is strictly above 60 dB |
| `ReadPhone.IsActive` | readphone.py:53-56 | a frame is active exactly when the absolute values of its three linear accelerations add up to strictly more than 1 |
| `ReadPhone.MovementSum` | readphone.py:53-56 | the movement magnitude used by the activity test is non-negative and at least each axis' absolute value |
| `ReadPhone.LowLightFrames` | readphone.py:73 | at most as many frames as the log; every kept frame is from the log and low-light |
| `ReadPhone.PocketFrames` | readphone.py:77 | at most as many frames as the low-light list; every kept frame is from the log, low-light and close |
| `ReadPhone.NoisyFrames` | readphone.py:81 | at most as many frames as the pocket list; every kept frame is from the log, low-light, close and audible |
| `ReadPhone.ActiveFrames` | readphone.py:97 | at most as many frames as the log; every kept frame is from the log and active |
| `ReadPhone.FilterChainIsNested` | readphone.py:73-97 | low-light ⊑ log, pocket ⊑ low-light, noisy ⊑ pocket, noisy ⊑ log, active ⊑ log (⊑ means order-preserving subsequence); the lengths never increase along the chain |
| `ReadPhone.PocketFramesExactly` | readphone.py:73-77 | the pocket list equals one filter of the log by "dim and close"; each frame is kept as often as it occurs in the log when it is dim and close, and never otherwise |
| `ReadPhone.NoisyFramesExactly` | readphone.py:73-81 | the noisy list equals one filter of the log by "dim, close and audible"; a frame is in it exactly when it is in the log and passes all three tests, and it is kept as often as it occurs |
| `ReadPhone.MovementSums` | readphone.py:120-124 | one entry per frame; each entry is that frame's movement magnitude and non-negative; a frame is active exactly when its entry exceeds 1 |
| `ReadPhone.ActiveIndicators` | readphone.py:130-138 | one entry per frame, each 0 or 1; entry i is 1 exactly when frame i is active; the entries sum to the number of active frames, and half that sum is the active time |
| `ReadPhone.MillisToSeconds` | readphone.py:69-70 | one entry per reading; each entry times 1000 is the millisecond reading |
| `ReadPhone.FrameTimes` | readphone.py:66-70 | the time axis has one entry per frame, and entry i is frame i's timestamp divided by 1000 |
| `ReadPhone.MeanLux` | readphone.py:90-91 | needs a non-empty log; the mean times the number of frames is the sum of the lux column |
| `ReadPhone.MeanLuxBetween` | readphone.py:90-91 | the mean illuminance (its division needs a non-empty log) lies within any bounds that hold of every frame's illuminance |
| `ReadPhone.AllLowLightMeanIsLowLight` | readphone.py:90-91 | when every frame is low-light, the mean illuminance is below 200 |
| `ReadPhone.TotalTime` | readphone.py:93-94 | needs a non-empty log; the elapsed time times 1000 is the last frame's timestamp minus the first's, and a one-frame log has elapsed time 0 |
| `ReadPhone.TotalTimeSpansTimeAxis` | readphone.py:93-94 | the elapsed time is the last minus the first entry of the time axis |
| `ReadPhone.TotalTimeNonNegative` | readphone.py:93-94 | the elapsed time is non-negative when the timestamps never decrease |
| `ReadPhone.NominalTotalTime` | readphone.py:93-94 | with frames 500 ms apart, the elapsed time of n frames is (n − 1) × 0.5 s |
| `ReadPhone.ActiveTime` | readphone.py:104-105 | active time is 0.5 s per active frame, between 0 and 0.5 s × the number of frames |
| `ReadPhone.ActivePercentage` | readphone.py:109 | needs a non-empty log and a non-zero elapsed time; the result is 0 exactly when no frame is active, and non-negative when the elapsed time is positive |
| `ReadPhone.ActivePercentageOverstates` | readphone.py:104-109 | with nominal spacing, the script's percentage × (n − 1) equals the active-frame share × n |
| `ReadPhone.AllActiveExceedsHundredPercent` | readphone.py:104-109 | a nominally spaced log of two or more frames, all of them active, reports more than 100 percent |
| `ReadPhone.ActivePercentageOfFrames` | readphone.py:104-109 | the share of active frames as a percentage: between 0 and 100; exactly 100 when every frame is active and exactly 0 when none is |
| `ReadPhone.ActivePercentageOfFramesIsTimeShare` | readphone.py:104-109 | with nominal spacing, that share is the active time divided by the time the frames cover, counting the last frame's 0.5 s |
| `Sequences.Filter` | readphone.py:73-97 | a comprehension's result is no longer than its input, and its elements come from the input and satisfy the predicate |
| `Sequences.FilterMultiplicity` | readphone.py:73-97 | a comprehension keeps every occurrence of an element that passes and none of one that fails |
| `Sequences.FilterEmbeds` | readphone.py:73-97 | the kept positions increase strictly and select the result's elements from the input in order |

## Findings

| source | as written | input that shows it | evidently intended | confidence | as-written member | corrected member |
|---|---|---|---|---|---|---|
| readphone.py:104-109 | active time counts 0.5 s for each of the n frames, but the elapsed time runs from the first timestamp to the last, which covers only n − 1 frame intervals | two frames at 0 ms and 500 ms, both with linear acceleration X = 2: active time 1 s, elapsed time 0.5 s, printed percentage 200 | a percentage of the recording time, between 0 and 100 | not executed; follows from the arithmetic | `ReadPhone.ActivePercentage` (shown by `ReadPhone.AllActiveExceedsHundredPercent`) | `ReadPhone.ActivePercentageOfFrames` (related to time by `ReadPhone.ActivePercentageOfFramesIsTimeShare`) |

## Left out

- Loading the CSV file (lines 59-63) is file I/O through pandas. The log is an input sequence of frames instead.
- A frame is a row of at least 30 readings. Line 67 reads column 29 of every row before anything else runs, so a narrower table crashes there. The model excludes such a table by type and does not model the crash.
- The numeric types pandas infers for the columns are not modelled. Every reading is an exact `real`.
- IEEE floating-point rounding in the sums, the absolute values and the divisions is not modelled. Results are exact.
- The division by the number of frames (line 91) crashes on an empty log. `MeanLux` and `TotalTime` therefore require a non-empty log.
- The division by the elapsed time (line 109) fails when the elapsed time is zero. If any column holds text, `.values` is an object array of Python numbers and the division raises `ZeroDivisionError`. If every column is numeric, it gives an infinite or undefined float64 value. `ActivePercentage` requires a non-zero elapsed time instead.
- The printed messages (lines 84-109) are output only. Only the values they print are modelled.
- The plots (lines 111-142) are interactive display. Only the series fed to them are modelled (`FrameTimes`, `ColumnOf`, `MovementSums`, `ActiveIndicators`).
- The script assumes frames 500 ms apart with non-decreasing timestamps but never checks either. Neither is an invariant of the model. They appear only as hypotheses of `TotalTimeNonNegative`, `NominalTotalTime`, `ActivePercentageOverstates`, `AllActiveExceedsHundredPercent` and `ActivePercentageOfFramesIsTimeShare`.
- The script has no cutoff parameters: its thresholds are fixed constants. So "raising a cutoff never shrinks a category" has nothing to be stated about. `ThresholdsAreStrict` states the behaviour at each fixed cutoff.
- The acceleration and orientation offsets (lines 13-15, 23-25) are declared but never used by the script. They appear only as constants.
