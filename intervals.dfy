/**
 * Watched intervals of a media timeline and the metrics derived from them.
 * A watched interval is a closed span [start, end] of playback time in seconds.
 */
module Intervals {

  /** One span of the timeline that was watched continuously, `{start, end}` in the tracker. */
  datatype Interval = Interval(start: real, end: real)

  function Length(iv: Interval): real {
    iv.end - iv.start
  }

  function Max(a: real, b: real): real {
    if a >= b then a else b
  }

  function Min(a: real, b: real): real {
    if a <= b then a else b
  }

  /** The spans that the tracker accepts: non-negative start and positive length. */
  predicate IsValid(iv: Interval) {
    0.0 <= iv.start < iv.end
  }

  predicate AllValid(s: seq<Interval>) {
    forall i :: 0 <= i < |s| ==> IsValid(s[i])
  }

  /** Closed-interval membership: both end points count as watched. */
  predicate Contains(iv: Interval, t: real) {
    iv.start <= t <= iv.end
  }

  /** Time `t` has been watched according to the list `s`. */
  predicate Covers(s: seq<Interval>, t: real) {
    exists iv :: iv in s && Contains(iv, t)
  }

  predicate SortedByStart(s: seq<Interval>) {
    forall i, j :: 0 <= i < j < |s| ==> s[i].start <= s[j].start
  }

  /** Each span ends strictly before the next one starts: no overlap and no touching. */
  predicate Separated(s: seq<Interval>) {
    forall i, j :: 0 <= i < |s| && j == i + 1 && j < |s| ==> s[i].end < s[j].start
  }

  /** The canonical form a merged interval list has: valid spans, strictly separated. */
  predicate Canonical(s: seq<Interval>) {
    AllValid(s) && Separated(s)
  }

  /**
   * Sum of `end - start` over the list: the unique watched time of a canonical
   * list, never negative when every span is valid.
   */
  function TotalLength(s: seq<Interval>): (r: real)
    ensures AllValid(s) ==> r >= 0.0
  {
    if s == [] then 0.0 else TotalLength(s[..|s| - 1]) + Length(s[|s| - 1])
  }

  /**
   * Watched percentage: 0 when the duration is 0 (or unknown), otherwise
   * unique / duration * 100 capped at 100.
   */
  function Percentage(unique: real, duration: real): (p: real)
    ensures p <= 100.0
    ensures duration > 0.0 && unique >= 0.0 ==> p >= 0.0
  {
    if duration == 0.0 then 0.0 else Min(unique / duration * 100.0, 100.0)
  }

  lemma {:induction false} CanonicalIsOrdered(s: seq<Interval>)
    requires Canonical(s)
    ensures forall i, j :: 0 <= i < j < |s| ==> s[i].end < s[j].start
    ensures SortedByStart(s)
  {
    forall i, j | 0 <= i < j < |s|
      ensures s[i].end < s[j].start
    {
      EndBeforeLaterStart(s, i, j);
    }
    forall i, j | 0 <= i < j < |s|
      ensures s[i].start <= s[j].start
    {
      assert s[i] in s;
      EndBeforeLaterStart(s, i, j);
    }
  }

  lemma {:induction false} EndBeforeLaterStart(s: seq<Interval>, i: nat, j: nat)
    requires Canonical(s) && i < j < |s|
    ensures s[i].end < s[j].start
    decreases j - i
  {
    assert s[j] in s && s[j - 1] in s;
    if i < j - 1 {
      EndBeforeLaterStart(s, i, j - 1);
      assert IsValid(s[j - 1]);
    }
  }

  lemma {:induction false} TotalLengthAppend(x: seq<Interval>, y: seq<Interval>)
    ensures TotalLength(x + y) == TotalLength(x) + TotalLength(y)
    decreases |y|
  {
    if y == [] {
      assert x + y == x;
    } else {
      var y' := y[..|y| - 1];
      assert (x + y)[..|x + y| - 1] == x + y';
      TotalLengthAppend(x, y');
    }
  }

  lemma TotalLengthSplit(s: seq<Interval>, k: nat)
    requires k <= |s|
    ensures TotalLength(s) == TotalLength(s[..k]) + TotalLength(s[k..])
  {
    assert s[..k] + s[k..] == s;
    TotalLengthAppend(s[..k], s[k..]);
  }

  /** The percentage is 0 without a duration, exact below the cap, and exactly 100 from the cap on. */
  lemma PercentageBounds(unique: real, duration: real)
    ensures duration == 0.0 ==> Percentage(unique, duration) == 0.0
    ensures duration > 0.0 && unique <= duration ==> Percentage(unique, duration) == unique / duration * 100.0
    ensures duration > 0.0 && unique >= duration ==> Percentage(unique, duration) == 100.0
  {
    if duration > 0.0 {
      var q := unique / duration;
      assert q * duration == unique;
      if unique <= duration {
        assert q <= 1.0;
      }
      if unique >= duration {
        assert q * duration >= 1.0 * duration;
        assert q >= 1.0;
      }
    }
  }

  /** More unique watched time never yields a smaller percentage. */
  lemma PercentageMonotone(u1: real, u2: real, duration: real)
    requires u1 <= u2 && duration >= 0.0
    ensures Percentage(u1, duration) <= Percentage(u2, duration)
  {
    if duration > 0.0 {
      assert u1 / duration <= u2 / duration;
    }
  }
}
