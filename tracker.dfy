/**
 * The watched-interval tracker attached to one video element. The element's
 * readings (current time, paused flag, duration) are passed in as parameters;
 * each media event handler of the tracker is a method.
 */
module Tracker {
  import opened Intervals
  import opened Merge

  datatype Option<T> = None | Some(value: T)

  /** The media events the tracker listens to. */
  datatype MediaEvent = Play | Pause | Seeked | TimeUpdate | LoadedMetadata | Ended

  class VideoProgressTracker {
    /** The merged list of watched spans. */
    var watchedIntervals: seq<Interval>
    /** Where the open span started, or None when no span is open. */
    var currentStartTime: Option<real>
    /** Playback position at the most recent time update. */
    var lastPosition: real
    var isTracking: bool

    /**
     * The tracker's invariant: the list is merged (valid, strictly separated
     * spans) and a tracking session always has an open span.
     */
    ghost predicate Valid()
      reads this
    {
      Canonical(watchedIntervals) && (isTracking ==> currentStartTime.Some?)
    }

    /** A fresh tracker with nothing watched. */
    constructor ()
      ensures Valid()
      ensures watchedIntervals == [] && currentStartTime == None
      ensures lastPosition == 0.0 && !isTracking
    {
      watchedIntervals := [];
      currentStartTime := None;
      lastPosition := 0.0;
      isTracking := false;
    }

    /** On play: open a span at the current time, unless one is already open. */
    method StartTracking(currentTime: real)
      requires Valid()
      modifies this
      ensures Valid()
      ensures old(isTracking) ==> currentStartTime == old(currentStartTime)
      ensures !old(isTracking) ==> currentStartTime == Some(currentTime)
      ensures isTracking
      ensures watchedIntervals == old(watchedIntervals) && lastPosition == old(lastPosition)
    {
      if !isTracking {
        currentStartTime := Some(currentTime);
        isTracking := true;
      }
    }

    /**
     * On pause and on ended: close the open span at the current time, record it
     * if it has positive length, and stop tracking.
     */
    method StopTracking(currentTime: real)
      requires Valid()
      modifies this
      ensures Valid()
      ensures old(isTracking) && old(currentStartTime).Some? ==>
        && !isTracking
        && currentStartTime == None
        && watchedIntervals ==
             if currentTime > old(currentStartTime).value
             then Added(old(watchedIntervals), old(currentStartTime).value, currentTime)
             else old(watchedIntervals)
      ensures !(old(isTracking) && old(currentStartTime).Some?) ==>
        && isTracking == old(isTracking)
        && currentStartTime == old(currentStartTime)
        && watchedIntervals == old(watchedIntervals)
      ensures lastPosition == old(lastPosition)
      ensures forall t :: Covers(old(watchedIntervals), t) ==> Covers(watchedIntervals, t)
      ensures TotalLength(watchedIntervals) >= TotalLength(old(watchedIntervals))
    {
      if isTracking && currentStartTime.Some? {
        var endTime := currentTime;
        if endTime > currentStartTime.value {
          AddInterval(currentStartTime.value, endTime);
        }
        isTracking := false;
        currentStartTime := None;
      }
    }

    /**
     * On seeked: when tracking, close the open span at the position seen before
     * the seek (the last time update), then re-open at the new position if the
     * video is playing. Tracking itself is never switched on or off here.
     */
    method HandleSeek(currentTime: real, paused: bool)
      requires Valid()
      modifies this
      ensures Valid()
      ensures isTracking == old(isTracking) && lastPosition == old(lastPosition)
      ensures watchedIntervals ==
        if old(isTracking) && old(currentStartTime).Some? && old(lastPosition) > old(currentStartTime).value
        then Added(old(watchedIntervals), old(currentStartTime).value, old(lastPosition))
        else old(watchedIntervals)
      ensures currentStartTime == if paused then old(currentStartTime) else Some(currentTime)
      ensures forall t :: Covers(old(watchedIntervals), t) ==> Covers(watchedIntervals, t)
      ensures TotalLength(watchedIntervals) >= TotalLength(old(watchedIntervals))
    {
      if isTracking && currentStartTime.Some? {
        var seekFromTime := lastPosition;
        if seekFromTime > currentStartTime.value {
          AddInterval(currentStartTime.value, seekFromTime);
        }
      }
      if !paused {
        currentStartTime := Some(currentTime);
      }
    }

    /** On time update: remember the playback position. */
    method UpdateProgress(currentTime: real)
      requires Valid()
      modifies this
      ensures Valid()
      ensures lastPosition == currentTime
      ensures watchedIntervals == old(watchedIntervals)
      ensures currentStartTime == old(currentStartTime) && isTracking == old(isTracking)
    {
      lastPosition := currentTime;
    }

    /**
     * Record the span [start, end]: a span with negative start or without
     * positive length is ignored, otherwise it is appended and the list re-merged.
     */
    method AddInterval(start: real, end: real)
      requires Valid()
      modifies this
      ensures Valid()
      ensures watchedIntervals == Added(old(watchedIntervals), start, end)
      ensures start >= end || start < 0.0 ==> watchedIntervals == old(watchedIntervals)
      ensures forall t :: Covers(watchedIntervals, t) <==>
        Covers(old(watchedIntervals), t) || (0.0 <= start < end && start <= t <= end)
      ensures TotalLength(watchedIntervals) >= TotalLength(old(watchedIntervals))
      ensures currentStartTime == old(currentStartTime) && isTracking == old(isTracking)
      ensures lastPosition == old(lastPosition)
    {
      ghost var before := watchedIntervals;
      AddedIsCanonical(before, start, end);
      AddedNeverDecreasesTotal(before, start, end);
      forall t ensures Covers(Added(before, start, end), t) <==>
        Covers(before, t) || (0.0 <= start < end && start <= t <= end)
      {
        AddedCoverage(before, start, end, t);
      }
      if start >= end || start < 0.0 {
        return;
      }
      watchedIntervals := watchedIntervals + [Interval(start, end)];
      MergeIntervals();
    }

    /**
     * Sort the list by start, then sweep it once, folding every span that starts
     * at or before the end of the last merged span into that span.
     */
    method MergeIntervals()
      modifies this
      ensures watchedIntervals == Merged(old(watchedIntervals))
      ensures AllValid(old(watchedIntervals)) ==> Canonical(watchedIntervals) && SortedByStart(watchedIntervals)
      ensures |watchedIntervals| <= |old(watchedIntervals)|
      ensures forall t :: Covers(watchedIntervals, t) <==> Covers(old(watchedIntervals), t)
      ensures currentStartTime == old(currentStartTime) && isTracking == old(isTracking)
      ensures lastPosition == old(lastPosition)
    {
      ghost var before := watchedIntervals;
      if AllValid(before) {
        MergedIsCanonical(before);
      }
      forall t ensures Covers(Merged(before), t) <==> Covers(before, t) {
        MergedPreservesCoverage(before, t);
      }
      if |watchedIntervals| <= 1 {
        return;
      }
      var sorted := SortByStart(watchedIntervals);
      var merged := [sorted[0]];
      var i := 1;
      while i < |sorted|
        invariant 1 <= i <= |sorted|
        invariant merged != []
        invariant Sweep(merged, sorted[i..]) == MergeSorted(sorted)
      {
        var current := sorted[i];
        var lastMerged := merged[|merged| - 1];
        if current.start <= lastMerged.end {
          merged := merged[..|merged| - 1] + [Interval(lastMerged.start, Max(lastMerged.end, current.end))];
        } else {
          merged := merged + [current];
        }
        assert sorted[i..][1..] == sorted[i + 1..];
        i := i + 1;
      }
      watchedIntervals := merged;
    }

    /** Total watched time: the sum of the lengths of the recorded spans. */
    method CalculateUniqueWatchedTime() returns (totalTime: real)
      ensures totalTime == TotalLength(watchedIntervals)
      ensures AllValid(watchedIntervals) ==> totalTime >= 0.0
    {
      totalTime := 0.0;
      var i := 0;
      while i < |watchedIntervals|
        invariant 0 <= i <= |watchedIntervals|
        invariant totalTime == TotalLength(watchedIntervals[..i])
      {
        var interval := watchedIntervals[i];
        assert watchedIntervals[..i + 1][..i] == watchedIntervals[..i];
        totalTime := totalTime + (interval.end - interval.start);
        i := i + 1;
      }
      assert watchedIntervals[..i] == watchedIntervals;
    }

    /**
     * Watched percentage of a video of the given duration (0 for an unknown
     * duration): never above 100, and never below 0 for a valid list.
     */
    method CalculateProgressPercentage(duration: real) returns (percentage: real)
      ensures percentage == Percentage(TotalLength(watchedIntervals), duration)
      ensures percentage <= 100.0
      ensures duration == 0.0 ==> percentage == 0.0
      ensures AllValid(watchedIntervals) && duration > 0.0 ==> percentage >= 0.0
    {
      var uniqueTime := CalculateUniqueWatchedTime();
      PercentageBounds(uniqueTime, duration);
      percentage := Percentage(uniqueTime, duration);
    }

    /** The position the player is asked to jump to on resume, if there is one. */
    method ResumeFromLastPosition() returns (seekTarget: Option<real>)
      ensures seekTarget.Some? <==> lastPosition > 0.0
      ensures seekTarget.Some? ==> seekTarget.value == lastPosition
    {
      if lastPosition > 0.0 {
        seekTarget := Some(lastPosition);
      } else {
        seekTarget := None;
      }
    }

    /** Forget everything watched and stop tracking. */
    method Reset()
      modifies this
      ensures Valid()
      ensures watchedIntervals == [] && currentStartTime == None
      ensures lastPosition == 0.0 && !isTracking
    {
      watchedIntervals := [];
      currentStartTime := None;
      lastPosition := 0.0;
      isTracking := false;
    }

    /**
     * Route one media event to its handler. Whatever the event, the invariant
     * is kept and no watched time is lost.
     */
    method HandleEvent(event: MediaEvent, currentTime: real, paused: bool)
      requires Valid()
      modifies this
      ensures Valid()
      ensures forall t :: Covers(old(watchedIntervals), t) ==> Covers(watchedIntervals, t)
      ensures TotalLength(watchedIntervals) >= TotalLength(old(watchedIntervals))
      ensures event == Play ==> isTracking
      ensures event == Pause || event == Ended ==> !isTracking
      ensures event == Seeked ==> isTracking == old(isTracking)
      ensures event == TimeUpdate ==> lastPosition == currentTime
    {
      match event
      case Play => StartTracking(currentTime);
      case Pause => StopTracking(currentTime);
      case Ended => StopTracking(currentTime);
      case Seeked => HandleSeek(currentTime, paused);
      case TimeUpdate => UpdateProgress(currentTime);
      case LoadedMetadata =>
    }
  }

  /** Play at 0, a time update at 10, then a seek to 50 while playing: only [0, 10] is watched. */
  method SeekForwardSkipsUnwatched() {
    var tracker := new VideoProgressTracker();
    tracker.StartTracking(0.0);
    tracker.UpdateProgress(10.0);
    tracker.HandleSeek(50.0, false);
    assert [] + [Interval(0.0, 10.0)] == [Interval(0.0, 10.0)];
    assert tracker.watchedIntervals == [Interval(0.0, 10.0)];
    assert tracker.currentStartTime == Some(50.0) && tracker.isTracking;
  }

  /**
   * The same seek when a time update at the seek target arrives before the
   * seek handler: the last observed position is already the target, so the
   * skipped stretch [10, 50] is recorded as watched.
   */
  method TargetUpdateBeforeSeekedCountsSkipped() {
    var tracker := new VideoProgressTracker();
    tracker.StartTracking(0.0);
    tracker.UpdateProgress(10.0);
    tracker.UpdateProgress(50.0);
    tracker.HandleSeek(50.0, false);
    assert [] + [Interval(0.0, 50.0)] == [Interval(0.0, 50.0)];
    assert tracker.watchedIntervals == [Interval(0.0, 50.0)];
  }

  /** Play immediately followed by pause at the same position records nothing. */
  method PauseWithoutElapsedTime() {
    var tracker := new VideoProgressTracker();
    tracker.StartTracking(5.0);
    tracker.StopTracking(5.0);
    assert tracker.watchedIntervals == [];
    assert !tracker.isTracking && tracker.currentStartTime == None;
  }

  /** Watching [0, 10] and then [10, 20] leaves the single span [0, 20]. */
  method TouchingSpansMerge() {
    var tracker := new VideoProgressTracker();
    tracker.AddInterval(0.0, 10.0);
    tracker.AddInterval(10.0, 20.0);
    AdjacentSpansMerge(0.0, 10.0, 10.0, 20.0);
    assert tracker.watchedIntervals == [Interval(0.0, 20.0)];
  }
}
