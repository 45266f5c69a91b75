# Sound event detection and lag selection, modelled in Dafny

This project models two parts of `exercise.py`. That script detects two sound
events in a three-microphone recording and then localises them.

- **The event-onset scanner `pseudo_vad`** (module `Vad`, `vad.dfy`). It
  slides non-overlapping windows of `wl` samples over a recording of `n`
  samples. An active window opens a detection when none is in progress, and
  the pointer then jumps two windows (hysteresis). An inactive window closes
  the open detection at its own start and moves the pointer one window. If a
  jump passes `n - wl`, the open detection is closed at `n`. The spectral
  energy test is the oracle `active(window_start)`. `PseudoVad` is the loop
  itself, over a sequence of `[start, end]` pairs whose last end it
  overwrites. It is proved equal to `Detections`, a reference definition
  that gives one detection per run of active windows in the examined trace
  `Visits`. The properties are lemmas about that reference.
- **The re-centring and peak picking at the end of `gcc_phat`** (module
  `GccPhat`, `gcc_phat.dfy`). The inverse-transformed correlation `rphat`
  has `n` samples. Its last `n/2` samples are moved in front of its first
  `n/2`, and the offset is the index of the first sample of largest
  magnitude, less `n/2`.

`arith.dfy` (module `IndexArith`) holds the uniqueness of Euclidean
remainders, which both modules use for index arithmetic.

## Model

| member | source | states |
|---|---|---|
| Vad.Visits | exercise.py:26-27 | every examined window start lies in [w, n - wl): the loop guard is strict |
| Vad.VisitsFollowPointer | exercise.py:27-46 | the scan examines nothing iff the pointer starts at or past n - wl; it examines the pointer first; each next window is one window on after an inactive one and two after an active one; the step after the last examined window reaches n - wl (termination) |
| Vad.VisitsAligned | exercise.py:26-46 | every examined window start is a non-negative multiple of wl strictly below n - wl |
| Vad.VisitsIncreasing | exercise.py:37-46 | examined windows are strictly increasing, at least wl apart |
| Vad.Hysteresis | exercise.py:33-37 | after an active window at w, the window at w + wl is never examined, and the next examined window, if any, is w + 2wl |
| Vad.Onsets | exercise.py:34-35 | the onset list only holds indices of the examined trace |
| Vad.OnsetsSpec | exercise.py:34-36 | the onsets are exactly the examined active windows whose examined predecessor is inactive, in increasing order |
| Vad.FirstInactive | exercise.py:42-45 | the closing index lies strictly after the onset and at most one past the trace |
| Vad.FirstInactiveSpec | exercise.py:42-45 | the closing index names an inactive window, and every window it skips is active |
| Vad.PseudoVad | exercise.py:17-48 | the loop returns exactly the reference detections of the examined trace |
| Vad.DetectionStarts | exercise.py:33-36 | each detection starts at an examined active window that is a multiple of wl in [0, n - wl), and every onset starts a detection |
| Vad.DetectionEnds | exercise.py:35-45 | start <= end <= n, and the end is a later inactive examined window, or n, or the start itself |
| Vad.DetectionsOrdered | exercise.py:34-45 | detections are strictly ordered and disjoint: each ends before the next starts |
| Vad.OnlyLastUnclosed | exercise.py:39-45 | every detection but the last ends strictly after its start |
| Vad.UnclosedOnExactLanding | exercise.py:37-41 | the last detection ends at its own start iff the last examined window is active and its jump lands exactly on n - wl |
| Vad.EmptyWhenNothingActive | exercise.py:24-35 | no detections iff no examined window is active; n <= wl gives none |
| GccPhat.Recentre | exercise.py:68-69 | the result has length 2 * (n / 2), except that one sample comes back unchanged because a slice from -0 is the whole sequence |
| GccPhat.RecentreElements | exercise.py:68-69 | for n >= 2, position i holds lag i - n/2, that is, sample (i - n/2) mod n |
| GccPhat.RecentreKeepsAllButMiddle | exercise.py:68-69 | every sample j except the middle one of an odd length appears at position (j + n/2) mod n |
| GccPhat.RecentrePermutes | exercise.py:68-69 | the result is a permutation of rphat for even n, and of rphat less its middle sample for odd n |
| GccPhat.ArgMaxAbs | exercise.py:73 | the index is in range, its magnitude is maximal, and every earlier magnitude is strictly smaller (first maximum) |
| GccPhat.Offset | exercise.py:68-73 | no offset for an empty input; 0 for one sample; otherwise in [-n/2, n/2) |
| GccPhat.OffsetIsFirstPeak | exercise.py:68-73 | the chosen lag's sample is at least as large in magnitude as that of every lag in [-n/2, n/2), and strictly larger than that of every smaller lag |

## Left out

- The energy test (band mask, windowed real FFT, in-band ratio and threshold, lines 20-22 and 28-33) is floating-point spectral work. It is the oracle `active`.
- Vad.PseudoVad: requires wl > 0. The source raises an error at line 21 when the window length is not positive, because the frequency grid cannot be built. The requires drops that error path, and it is also what termination needs.
- Vad.DetectionEnds: a detection is left as `[s, s]` when the last jump lands exactly on n - wl, because the loop's strict guard stops before the force-close test. The driver (exercise.py:130-131) then passes empty segments to `gcc_phat`. The model follows the code; `Vad.UnclosedOnExactLanding` characterises that case.
- The recording's samples and the returned numpy array are not modelled. Only the length `n` and the `[start, end]` pairs matter to the scan.
- The FFTs, conjugate product, phase normalisation and inverse FFT that produce `rphat` (lines 55-64) are numeric work. `rphat` is the input of `GccPhat`.
- GccPhat.ArgMaxAbs: over exact reals. NaN samples, for which numpy's argmax returns the first NaN, are not modelled.
- GccPhat.Offset: an empty `rphat` gives `None`. The empty case is reachable: for an unclosed detection `[s, s]` the driver (exercise.py:130-131) passes two empty segments, so `n` is 0 and the program fails at line 58, where the forward transform of length 0 raises an error, before lines 68-73 run. `None` stands for that failure.
- The conversion of the offset to seconds (`tau = offset / fs`) is a floating-point division and is not modelled.
- `hypers`, the `fsolve` localisation, the audio file reading and the command-line driver are outside the modelled core.
