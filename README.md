# Video progress tracker: watched intervals, merge and progress

This project models the core of `VideoProgressTracker` in `script.js`. The
tracker records which parts of a video's timeline a viewer has actually
watched. It folds overlapping or repeated viewing into a list of disjoint
watched spans, and it derives a unique watched time and a watched percentage
from that list.

The model has three modules:

- `Intervals` (`intervals.dfy`) holds the `Interval` value `{start, end}`.
  It defines the canonical form of a merged list (valid spans, each ending
  strictly before the next one starts), the covered-time predicate `Covers`
  (closed spans), the sum of lengths `TotalLength` and the percentage formula.
- `Merge` (`merge.dfy`) models the sort-and-sweep of `mergeIntervals` and the
  guard of `addInterval` as functions:
  - `SortByStart` is a stable sort by start.
  - `Absorb` is one step of the sweep.
  - `Sweep` and `MergeSorted` are the whole sweep.
  - `Merged` is `mergeIntervals`.
  - `Added` is `addInterval`.

  The lemmas about these functions cover canonical form, covered time, length
  and total time.
- `Tracker` (`tracker.dfy`) holds the class `VideoProgressTracker`. Its fields
  are `watchedIntervals`, `currentStartTime` (`None` for `null`), `lastPosition`
  and `isTracking`. Each handler is a method that updates these fields in place.
  The video element's readings are method parameters: `currentTime`, `paused`,
  and `duration`, where an absent duration is 0.
  - `MergeIntervals` and `CalculateUniqueWatchedTime` keep the source's loops
    and are proved against the functions of `Merge` and `Intervals`.
  - The class invariant `Valid()` is required and kept by every event
    handler and by `AddInterval`, and established by the constructor and
    `Reset`: the list is canonical, and a tracking session has an open span.
  - Four scenario methods call the handlers on concrete inputs, and the
    verifier proves the outcome of each:
    - a seek forward from 10 to 50 while playing records only `[0, 10]` when
      the last time update before the seek handler was at 10;
    - the same seek records `[0, 50]`, the skipped stretch included, when a
      time update at the target 50 arrives before the seek handler; the
      handler closes the span at the last observed position, whatever it is;
    - a play and pause at the same position records nothing;
    - `[0, 10]` followed by `[10, 20]` gives `[0, 20]`.

Times are mathematical reals. Spans are closed: a span that starts exactly
where the previous one ends is merged into it, as `current.start <= lastMerged.end`
does in the source.

Where the code and the design description differ, the model follows the code:

- On `seeked` while the video is paused, the code does not stop tracking. It
  closes the open span if one is open, keeps `isTracking`, and leaves
  `currentStartTime` unchanged. The design describes an idle state here.
  `HandleSeek` states what the code does.
- The design says spans beyond the media duration are rejected. `addInterval`
  has no such check, and `Added` does not have one either.
- The design writes the pre-seek span half-open. The code records the closed
  span `{start, end}`, and coverage here is closed.

## Model

| member | source | states |
|---|---|---|
| Intervals.CanonicalIsOrdered | script.js:104-119 | a merged list is sorted by start and every span ends strictly before every later span starts, not only the next one |
| Intervals.TotalLengthAppend | script.js:122-128 | the summed length of two lists placed end to end is the sum of their summed lengths |
| Intervals.TotalLength | script.js:122-128 | the sum of `end - start` over the list; it is never negative when every span is valid |
| Intervals.Percentage | script.js:130-134 | the watched percentage is never above 100, and it is non-negative for a positive duration and non-negative watched time |
| Intervals.PercentageBounds | script.js:130-134 | the percentage is 0 for duration 0; for a positive duration it is exactly unique/duration*100 up to the duration and exactly 100 from there on |
| Intervals.PercentageMonotone | script.js:130-134 | more unique watched time never gives a smaller percentage for the same duration |
| Merge.InsertByStart | script.js:102 | inserting into the sorted prefix adds exactly the one element: the multiset grows by `x` |
| Merge.SortByStart | script.js:102 | the sort is a permutation of its input |
| Merge.SortByStartIsSorted | script.js:102 | the sort's output is ordered by start |
| Merge.SortOfSorted | script.js:102 | a list already ordered by start is left exactly as it is, so the sort is stable on sorted input |
| Merge.Absorb | script.js:107-116 | one sweep step keeps the accumulated list non-empty and grows it by at most one span |
| Merge.Sweep | script.js:104-119 | the sweep's result is non-empty and no longer than the accumulator plus the rest |
| Merge.SweepAppend | script.js:106-117 | sweeping `x + y` is sweeping `x` and then sweeping `y` from where it stopped |
| Merge.SweepOfSeparated | script.js:104-119 | a sweep over spans that are already strictly separated changes nothing |
| Merge.AbsorbCanonical | script.js:110-116 | folding a later-starting valid span into a canonical accumulator keeps it canonical |
| Merge.SweepCanonical | script.js:104-119 | sweeping sorted valid spans into a canonical accumulator yields a canonical list |
| Merge.AbsorbCovers | script.js:110-116 | after one step, a time is covered exactly when the accumulator or the folded span covered it |
| Merge.SweepCovers | script.js:104-119 | after the sweep, a time is covered exactly when the accumulator or one of the swept spans covered it |
| Merge.SweepGains | script.js:106-117 | the sweep's total length is at least the credit carried so far plus the total length of the separated spans still to come |
| Merge.MergeSorted | script.js:104-119 | the sweep of a sorted list seeded with its first span is never longer than the list, and is empty only for an empty list |
| Merge.Merged | script.js:98-120 | a list of at most one span is returned as it is, a longer one is sorted and swept; merging never increases the number of spans and empties only an empty list |
| Merge.MergedIsCanonical | script.js:98-120 | merging valid spans yields a canonical list: sorted by start and strictly separated, so no two spans overlap or touch |
| Merge.MergedPreservesCoverage | script.js:98-120 | merging preserves the covered time exactly: a time is covered after the merge if and only if it was covered before |
| Merge.MergedIdempotent | script.js:98-120 | merging an already merged list returns it unchanged |
| Merge.MergedTwiceIsMerged | script.js:98-120 | merging twice is the same as merging once |
| Merge.Added | script.js:88-93 | a span with start >= end or start < 0 leaves the list unchanged; a valid span is appended and the list re-merged, which leaves it non-empty and at most one span longer |
| Merge.AddedIsCanonical | script.js:88-93 | adding a span with start >= end or start < 0 is a no-op, and adding any span to a merged list leaves it merged |
| Merge.AddedCoverage | script.js:88-93 | after adding `[start, end]`, a time is covered if and only if it was covered before or the span is valid and contains it |
| Merge.AddedNeverDecreasesTotal | script.js:88-93 | adding a span to a merged list never decreases the unique watched time |
| Merge.AdjacentSpansMerge | script.js:110-112 | recording `[a, b]` and then a span starting inside or exactly at the end of it gives the single span `[a, max(b, d)]`, so `[0,10]` and `[10,20]` give `[0,20]` |
| Merge.ProgressNeverDecreases | script.js:130-134 | adding a span to a merged list never lowers the watched percentage |
| Tracker.VideoProgressTracker.constructor | script.js:3-14 | a new tracker has no spans, no open span, position 0 and is not tracking |
| Tracker.VideoProgressTracker.StartTracking | script.js:48-53 | a play opens a span at the current time only when not already tracking; a second play keeps the first start (idempotent), and tracking is on afterwards |
| Tracker.VideoProgressTracker.StopTracking | script.js:55-64 | when tracking with an open span: records `[start, now]` if now > start, then stops and clears the open span; otherwise nothing changes; covered and total time never shrink |
| Tracker.VideoProgressTracker.HandleSeek | script.js:66-80 | closes the open span at the last observed position (not the seek target) when tracking; re-anchors the open span at the new position only when playing; never changes `isTracking` or `lastPosition` |
| Tracker.VideoProgressTracker.UpdateProgress | script.js:82-86 | a time update sets `lastPosition` to the current time and changes nothing else |
| Tracker.VideoProgressTracker.AddInterval | script.js:88-96 | the list becomes the merged list with the span added; invalid spans are ignored; the covered time grows by exactly the span; total time never decreases |
| Tracker.VideoProgressTracker.MergeIntervals | script.js:98-120 | the in-place sort and sweep loop computes the merged list, which is canonical for valid input, no longer than before and covers exactly the same time |
| Tracker.VideoProgressTracker.CalculateUniqueWatchedTime | script.js:122-128 | the loop returns the sum of `end - start` over the list, which is non-negative for valid spans |
| Tracker.VideoProgressTracker.CalculateProgressPercentage | script.js:130-134 | the result is the percentage of the unique time over the duration: at most 100, 0 for duration 0, non-negative for valid spans |
| Tracker.VideoProgressTracker.ResumeFromLastPosition | script.js:205-209 | a jump target is produced exactly when the last position is positive, and it is that position |
| Tracker.VideoProgressTracker.Reset | script.js:211-219 | all tracking state is cleared: no spans, no open span, position 0, not tracking |
| Tracker.VideoProgressTracker.HandleEvent | script.js:16-46 | each media event runs its handler; for every event the invariant holds and no covered or total time is lost |

## Left out

- Tracker.VideoProgressTracker.HandleEvent: states only the invariant, the monotonicity of covered and total time, and the tracking flag or position per event. Each handler's own contract gives the full effect.
- The DOM output is not modelled: `updateDisplay`, `updateIntervalsDisplay`, `formatTime` and `getDebugInfo` only render state.
- Persistence is not modelled: `saveProgress`, `loadProgress` and the `window.videoProgressData` global are left out. A tracker therefore starts empty, and `loadProgress`'s unchecked restored list cannot break `Valid()`.
- Listener registration is not modelled. `HandleEvent` gives the mapping from each event to its handler. `loadedmetadata` only refreshes the display, so it changes no state.
- `Date.now` and the session time are left out. They feed only the display.
- Writes to `video.currentTime` are left out. `Reset`'s rewind to 0 is not modelled, and `ResumeFromLastPosition` returns the target instead of assigning it.
- Floating-point arithmetic is not modelled. Times are exact reals. A missing or NaN duration is passed as 0.
- Tracker.VideoProgressTracker.MergeIntervals: the source widens `lastMerged.end` in place, and `lastMerged` may be an object that is still in the old array. The model builds new `Interval` values, so this aliasing is not captured.
- Merge.SortByStart: the in-place `Array.prototype.sort` is modelled by a stable insertion sort that returns a new list. ECMAScript 2019 and later require the engine sort to be stable too, so the order of spans with equal starts is the same; the update in place is what the model does not capture.
- The order in which a browser delivers `timeupdate` and `seeked` around a seek is not fixed by the model. `HandleSeek` takes `lastPosition` as whatever the last `UpdateProgress` set. The HTML seeking steps queue a `timeupdate` at the target before `seeked`; in that order the skipped stretch is counted, as `TargetUpdateBeforeSeekedCountsSkipped` shows.
