/**
 * Merging watched intervals: the sort by start, the single sweep that folds
 * overlapping or touching spans together, and the validated insertion that
 * appends one span and re-merges the whole list.
 */
module Merge {
  import opened Intervals

  /**
   * Stable insertion of `x` into `t`: `x` goes after every span whose start is
   * not greater than its own.
   */
  function InsertByStart(t: seq<Interval>, x: Interval): (r: seq<Interval>)
    ensures multiset(r) == multiset(t) + multiset{x}
    decreases |t|
  {
    if t == [] || t[|t| - 1].start <= x.start then t + [x]
    else
      var front := t[..|t| - 1];
      assert t == front + [t[|t| - 1]];
      InsertByStart(front, x) + [t[|t| - 1]]
  }

  /**
   * Stable sort by start. It stands for the built-in array sort with the
   * comparator `a.start - b.start`, which ECMAScript 2019 and later require
   * to be stable.
   */
  function SortByStart(s: seq<Interval>): (r: seq<Interval>)
    ensures multiset(r) == multiset(s)
  {
    if s == [] then []
    else
      assert s == s[..|s| - 1] + [s[|s| - 1]];
      InsertByStart(SortByStart(s[..|s| - 1]), s[|s| - 1])
  }

  /** Position at which InsertByStart places `x`. */
  function InsertionPoint(t: seq<Interval>, x: Interval): (k: nat)
    ensures k <= |t|
    ensures k < |t| ==> x.start < t[k].start
    decreases |t|
  {
    if t == [] || t[|t| - 1].start <= x.start then |t|
    else InsertionPoint(t[..|t| - 1], x)
  }

  /**
   * One step of the sweep: fold `c` into the last merged span when it starts
   * at or before that span's end, otherwise start a new merged span.
   */
  function Absorb(m: seq<Interval>, c: Interval): (r: seq<Interval>)
    requires m != []
    ensures r != [] && |r| <= |m| + 1
  {
    var last := m[|m| - 1];
    if c.start <= last.end then m[..|m| - 1] + [Interval(last.start, Max(last.end, c.end))]
    else m + [c]
  }

  /** The rest of the sweep: `m` is what has been merged so far, `rest` what is left. */
  function Sweep(m: seq<Interval>, rest: seq<Interval>): (r: seq<Interval>)
    requires m != []
    ensures r != [] && |r| <= |m| + |rest|
    decreases |rest|
  {
    if rest == [] then m else Sweep(Absorb(m, rest[0]), rest[1..])
  }

  /**
   * The sweep over a list already sorted by start, seeded with its first span:
   * never longer than its input, and empty only for an empty input.
   */
  function MergeSorted(u: seq<Interval>): (r: seq<Interval>)
    ensures |r| <= |u|
    ensures r == [] <==> u == []
  {
    if u == [] then [] else Sweep([u[0]], u[1..])
  }

  /**
   * What the merge does to the interval list: lists of at most one span are
   * left alone, longer ones are sorted and swept. Merging never adds spans.
   */
  function Merged(s: seq<Interval>): (r: seq<Interval>)
    ensures |r| <= |s|
    ensures r == [] <==> s == []
  {
    if |s| <= 1 then s
    else
      var u := SortByStart(s);
      assert |u| == |multiset(u)| == |multiset(s)| == |s|;
      MergeSorted(u)
  }

  /**
   * The interval list after adding the span [start, end]: an invalid span is
   * dropped, a valid one is recorded, so the list is then non-empty.
   */
  function Added(s: seq<Interval>, start: real, end: real): (r: seq<Interval>)
    ensures start >= end || start < 0.0 ==> r == s
    ensures 0.0 <= start < end ==> r != [] && |r| <= |s| + 1
  {
    if start >= end || start < 0.0 then s else Merged(s + [Interval(start, end)])
  }

  // ---------------------------------------------------------------------------
  // Sorting

  lemma {:induction false} InsertKeepsSorted(t: seq<Interval>, x: Interval)
    requires SortedByStart(t)
    ensures SortedByStart(InsertByStart(t, x))
    decreases |t|
  {
    if t != [] && t[|t| - 1].start > x.start {
      var front, last := t[..|t| - 1], t[|t| - 1];
      InsertKeepsSorted(front, x);
      var r' := InsertByStart(front, x);
      forall i | 0 <= i < |r'|
        ensures r'[i].start <= last.start
      {
        assert r'[i] in multiset(r');
        assert r'[i] in front || r'[i] == x;
      }
    }
  }

  lemma {:induction false} SortByStartIsSorted(s: seq<Interval>)
    ensures SortedByStart(SortByStart(s))
  {
    if s != [] {
      SortByStartIsSorted(s[..|s| - 1]);
      InsertKeepsSorted(SortByStart(s[..|s| - 1]), s[|s| - 1]);
    }
  }

  /** Sorting a list that is already sorted by start leaves it as it is. */
  lemma {:induction false} SortOfSorted(s: seq<Interval>)
    requires SortedByStart(s)
    ensures SortByStart(s) == s
  {
    if s != [] {
      var front := s[..|s| - 1];
      SortOfSorted(front);
      assert front + [s[|s| - 1]] == s;
    }
  }

  lemma {:induction false} InsertSplit(t: seq<Interval>, x: Interval)
    ensures InsertByStart(t, x) == t[..InsertionPoint(t, x)] + [x] + t[InsertionPoint(t, x)..]
    decreases |t|
  {
    if t != [] && t[|t| - 1].start > x.start {
      var front, last := t[..|t| - 1], t[|t| - 1];
      var k := InsertionPoint(front, x);
      InsertSplit(front, x);
      SplitFront(t, k, x);
    }
  }

  lemma SplitFront(t: seq<Interval>, k: nat, x: Interval)
    requires k < |t|
    ensures t[..|t| - 1][..k] + [x] + t[..|t| - 1][k..] + [t[|t| - 1]] == t[..k] + [x] + t[k..]
  {
    var front := t[..|t| - 1];
    assert front[..k] == t[..k];
    assert front[k..] + [t[|t| - 1]] == t[k..];
  }

  // ---------------------------------------------------------------------------
  // The sweep

  lemma {:induction false} SweepAppend(m: seq<Interval>, x: seq<Interval>, y: seq<Interval>)
    requires m != []
    ensures Sweep(m, x + y) == Sweep(Sweep(m, x), y)
    decreases |x|
  {
    if x == [] {
      assert x + y == y;
    } else {
      assert (x + y)[0] == x[0] && (x + y)[1..] == x[1..] + y;
      SweepAppend(Absorb(m, x[0]), x[1..], y);
    }
  }

  /** A sweep over spans that are already separated from what was merged adds them unchanged. */
  lemma {:induction false} SweepOfSeparated(m: seq<Interval>, rest: seq<Interval>)
    requires m != [] && Separated(m + rest)
    ensures Sweep(m, rest) == m + rest
    decreases |rest|
  {
    if rest != [] {
      assert (m + rest)[|m|] == rest[0] && (m + rest)[|m| - 1] == m[|m| - 1];
      assert Absorb(m, rest[0]) == m + [rest[0]];
      assert m + [rest[0]] + rest[1..] == m + rest;
      SweepOfSeparated(m + [rest[0]], rest[1..]);
    }
  }

  /** One sweep step keeps the merged prefix canonical. */
  lemma AbsorbCanonical(m: seq<Interval>, c: Interval)
    requires m != [] && Canonical(m) && IsValid(c) && m[|m| - 1].start <= c.start
    ensures Canonical(Absorb(m, c))
    ensures var r := Absorb(m, c); r[|r| - 1].start == m[|m| - 1].start || r[|r| - 1] == c
  {
    var last := m[|m| - 1];
    assert last in m;
    var r := Absorb(m, c);
    if c.start <= last.end {
      var merged := Interval(last.start, Max(last.end, c.end));
      forall iv | iv in r ensures IsValid(iv) {
        if iv != merged {
          assert iv in m[..|m| - 1];
        }
      }
      forall i, j | 0 <= i < j < |r| && j == i + 1 ensures r[i].end < r[j].start {
        if j == |r| - 1 {
          assert r[i] == m[i];
        } else {
          assert r[i] == m[i] && r[j] == m[j];
        }
      }
    }
  }

  lemma {:induction false} SweepCanonical(m: seq<Interval>, rest: seq<Interval>)
    requires m != [] && Canonical(m)
    requires SortedByStart(rest) && AllValid(rest)
    requires rest != [] ==> m[|m| - 1].start <= rest[0].start
    ensures Canonical(Sweep(m, rest))
    decreases |rest|
  {
    if rest != [] {
      assert rest[0] in rest;
      AbsorbCanonical(m, rest[0]);
      var rest' := rest[1..];
      forall iv | iv in rest' ensures IsValid(iv) {
        assert iv in rest;
      }
      if rest' != [] {
        assert rest[0].start <= rest[1].start;
      }
      SweepCanonical(Absorb(m, rest[0]), rest');
    }
  }

  lemma CoversAppend(x: seq<Interval>, y: seq<Interval>, t: real)
    ensures Covers(x + y, t) <==> Covers(x, t) || Covers(y, t)
  {
    if Covers(x + y, t) {
      var iv :| iv in x + y && Contains(iv, t);
      assert iv in x || iv in y;
    }
    if Covers(x, t) {
      var iv :| iv in x && Contains(iv, t);
      assert iv in x + y;
    }
    if Covers(y, t) {
      var iv :| iv in y && Contains(iv, t);
      assert iv in x + y;
    }
  }

  lemma CoversSingleton(iv: Interval, t: real)
    ensures Covers([iv], t) <==> Contains(iv, t)
  {
    if Contains(iv, t) {
      assert iv in [iv];
    }
  }

  /** One sweep step covers exactly what the merged prefix and the new span covered. */
  lemma AbsorbCovers(m: seq<Interval>, c: Interval, t: real)
    requires m != [] && m[|m| - 1].start <= c.start
    ensures Covers(Absorb(m, c), t) <==> Covers(m, t) || Contains(c, t)
  {
    var front, last := m[..|m| - 1], m[|m| - 1];
    assert m == front + [last];
    CoversAppend(front, [last], t);
    CoversSingleton(last, t);
    CoversSingleton(c, t);
    if c.start <= last.end {
      var merged := Interval(last.start, Max(last.end, c.end));
      CoversAppend(front, [merged], t);
      CoversSingleton(merged, t);
    } else {
      CoversAppend(m, [c], t);
    }
  }

  lemma {:induction false} SweepCovers(m: seq<Interval>, rest: seq<Interval>, t: real)
    requires m != [] && SortedByStart(rest)
    requires rest != [] ==> m[|m| - 1].start <= rest[0].start
    ensures Covers(Sweep(m, rest), t) <==> Covers(m, t) || Covers(rest, t)
    decreases |rest|
  {
    if rest != [] {
      var c, rest' := rest[0], rest[1..];
      AbsorbCovers(m, c, t);
      var m' := Absorb(m, c);
      if rest' != [] {
        assert c.start <= rest[1].start && m[|m| - 1].start <= rest[1].start;
        assert m'[|m'| - 1].start <= rest'[0].start;
      }
      SweepCovers(m', rest', t);
      assert rest == [c] + rest';
      CoversAppend([c], rest', t);
      CoversSingleton(c, t);
    }
  }

  /**
   * The sweep never loses watched time measured against a separated input.
   * `credit` is the total already accounted for, `frontier` a point no later
   * than the end of the last merged span and no later than the next start;
   * the merged prefix holds at least `credit` plus the part of its last span
   * beyond `frontier`.
   */
  lemma {:induction false} SweepGains(m: seq<Interval>, rest: seq<Interval>, credit: real, frontier: real)
    requires m != [] && Canonical(rest)
    requires rest != [] ==> frontier <= rest[0].start
    requires frontier <= m[|m| - 1].end
    requires TotalLength(m) - credit >= m[|m| - 1].end - frontier
    ensures TotalLength(Sweep(m, rest)) >= credit + TotalLength(rest)
    decreases |rest|
  {
    if rest != [] {
      var c, rest' := rest[0], rest[1..];
      AbsorbKeepsCredit(m, c, credit, frontier);
      CanonicalSlice(rest, 1, |rest|);
      assert rest[1..|rest|] == rest';
      if rest' != [] {
        assert rest[0].end < rest[1].start;
      }
      SweepGains(Absorb(m, c), rest', credit + Length(c), c.end);
      TotalLengthFirst(rest);
    }
  }

  /** One sweep step moves the frontier to the end of the folded span and keeps the credit. */
  lemma AbsorbKeepsCredit(m: seq<Interval>, c: Interval, credit: real, frontier: real)
    requires m != [] && IsValid(c)
    requires frontier <= c.start && frontier <= m[|m| - 1].end
    requires TotalLength(m) - credit >= m[|m| - 1].end - frontier
    ensures var r := Absorb(m, c);
            c.end <= r[|r| - 1].end && TotalLength(r) - (credit + Length(c)) >= r[|r| - 1].end - c.end
  {
    var r := Absorb(m, c);
    if c.start <= m[|m| - 1].end {
      assert r[..|r| - 1] == m[..|m| - 1];
    } else {
      assert r[..|r| - 1] == m;
    }
  }

  lemma TotalLengthFirst(s: seq<Interval>)
    requires s != []
    ensures TotalLength(s) == Length(s[0]) + TotalLength(s[1..])
  {
    assert s == [s[0]] + s[1..];
    TotalLengthAppend([s[0]], s[1..]);
    assert [s[0]][..0] == [];
  }

  // ---------------------------------------------------------------------------
  // Properties of the merge

  lemma SortedKeepsValid(s: seq<Interval>)
    requires AllValid(s)
    ensures AllValid(SortByStart(s))
  {
    var u := SortByStart(s);
    forall iv | iv in u ensures IsValid(iv) {
      assert iv in multiset(u);
    }
  }

  /** After a merge of valid spans the list is sorted by start and strictly separated. */
  lemma MergedIsCanonical(s: seq<Interval>)
    requires AllValid(s)
    ensures Canonical(Merged(s))
    ensures SortedByStart(Merged(s))
    ensures forall i, j :: 0 <= i < j < |Merged(s)| ==> Merged(s)[i].end < Merged(s)[j].start
  {
    if |s| > 1 {
      var u := SortByStart(s);
      SortByStartIsSorted(s);
      SortedKeepsValid(s);
      assert u[0] in u;
      assert Canonical([u[0]]);
      var rest := u[1..];
      forall iv | iv in rest ensures IsValid(iv) {
        assert iv in u;
      }
      if rest != [] {
        assert u[0].start <= u[1].start;
      }
      SweepCanonical([u[0]], rest);
    } else if |s| == 1 {
      assert s[0] in s;
    }
    CanonicalIsOrdered(Merged(s));
  }

  /** Merging keeps exactly the watched time points: nothing is lost or invented. */
  lemma MergedPreservesCoverage(s: seq<Interval>, t: real)
    ensures Covers(Merged(s), t) <==> Covers(s, t)
  {
    if |s| > 1 {
      var u := SortByStart(s);
      SortByStartIsSorted(s);
      PermutationCovers(s, u, t);
      SortedSweepCovers(u, t);
    }
  }

  /** Two lists holding the same spans cover the same time points. */
  lemma PermutationCovers(s: seq<Interval>, u: seq<Interval>, t: real)
    requires multiset(u) == multiset(s)
    ensures Covers(u, t) <==> Covers(s, t)
  {
    if Covers(u, t) {
      var iv :| iv in u && Contains(iv, t);
      assert iv in multiset(u);
      assert iv in s;
    }
    if Covers(s, t) {
      var iv :| iv in s && Contains(iv, t);
      assert iv in multiset(s);
      assert iv in u;
    }
  }

  lemma SortedSweepCovers(u: seq<Interval>, t: real)
    requires SortedByStart(u) && u != []
    ensures Covers(Sweep([u[0]], u[1..]), t) <==> Covers(u, t)
  {
    var rest := u[1..];
    if rest != [] {
      assert u[0].start <= u[1].start;
    }
    SweepCovers([u[0]], rest, t);
    assert u == [u[0]] + rest;
    CoversAppend([u[0]], rest, t);
  }

  /** Merging a list that is already merged gives back the same list. */
  lemma MergedIdempotent(s: seq<Interval>)
    requires Canonical(s)
    ensures Merged(s) == s
  {
    if |s| > 1 {
      CanonicalIsOrdered(s);
      SortOfSorted(s);
      assert [s[0]] + s[1..] == s;
      SweepOfSeparated([s[0]], s[1..]);
    }
  }

  lemma MergedTwiceIsMerged(s: seq<Interval>)
    requires AllValid(s)
    ensures Merged(Merged(s)) == Merged(s)
  {
    MergedIsCanonical(s);
    MergedIdempotent(Merged(s));
  }

  // ---------------------------------------------------------------------------
  // Properties of adding a span

  /** An invalid span leaves the list as it was; a valid one is merged into a canonical list. */
  lemma AddedIsCanonical(s: seq<Interval>, start: real, end: real)
    requires Canonical(s)
    ensures start >= end || start < 0.0 ==> Added(s, start, end) == s
    ensures Canonical(Added(s, start, end))
  {
    if !(start >= end || start < 0.0) {
      var s' := s + [Interval(start, end)];
      assert AllValid(s');
      MergedIsCanonical(s');
    }
  }

  /** After adding, exactly the old watched points and the new span (if accepted) are covered. */
  lemma AddedCoverage(s: seq<Interval>, start: real, end: real, t: real)
    ensures Covers(Added(s, start, end), t) <==> Covers(s, t) || (0.0 <= start < end && start <= t <= end)
  {
    if !(start >= end || start < 0.0) {
      var iv := Interval(start, end);
      MergedPreservesCoverage(s + [iv], t);
      CoversAppend(s, [iv], t);
      CoversSingleton(iv, t);
    }
  }

  lemma CanonicalSlice(s: seq<Interval>, lo: nat, hi: nat)
    requires Canonical(s) && lo <= hi <= |s|
    ensures Canonical(s[lo..hi])
  {
    var t := s[lo..hi];
    forall x | x in t ensures IsValid(x) {
      assert x in s;
    }
    forall i, j | 0 <= i < j < |t| && j == i + 1 ensures t[i].end < t[j].start {
      assert t[i] == s[lo + i] && t[j] == s[lo + j];
    }
  }

  /** Sweeping the rest of a canonical list's prefix rebuilds that prefix. */
  lemma SweepOfPrefix(s: seq<Interval>, k: nat, tail: seq<Interval>)
    requires Canonical(s) && 0 < k <= |s|
    ensures Sweep([s[0]], s[1..k] + tail) == Sweep(s[..k], tail)
  {
    CanonicalSlice(s, 0, k);
    SweepAppend([s[0]], s[1..k], tail);
    assert [s[0]] + s[1..k] == s[..k];
    SweepOfSeparated([s[0]], s[1..k]);
  }

  /**
   * What one sweep step adds to the total: with `f` the old last end when `c`
   * is folded in and `c.start` otherwise, the gain covers the new last span
   * beyond `f`.
   */
  lemma AbsorbGain(m: seq<Interval>, c: Interval)
    requires m != [] && c.start <= c.end
    ensures var r := Absorb(m, c);
            var f := if c.start <= m[|m| - 1].end then m[|m| - 1].end else c.start;
            f <= r[|r| - 1].end && TotalLength(r) - TotalLength(m) >= r[|r| - 1].end - f
  {
    var r := Absorb(m, c);
    if c.start <= m[|m| - 1].end {
      assert r[..|r| - 1] == m[..|m| - 1];
    } else {
      assert r[..|r| - 1] == m;
    }
  }

  /** Sweeping a canonical list with a span inserted after its first `k` spans, `k > 0`. */
  lemma SweepThroughInsert(s: seq<Interval>, k: nat, iv: Interval)
    requires Canonical(s) && 0 < k <= |s|
    ensures Sweep([s[0]], s[1..k] + ([iv] + s[k..])) == Sweep(Absorb(s[..k], iv), s[k..])
  {
    var after := s[k..];
    SweepOfPrefix(s, k, [iv] + after);
    assert ([iv] + after)[0] == iv && ([iv] + after)[1..] == after;
  }

  /** SweepGains from the point where the new span has been folded into `before`. */
  lemma SweepGainsAfterAbsorb(before: seq<Interval>, iv: Interval, after: seq<Interval>)
    requires before != [] && IsValid(iv) && Canonical(after)
    requires after != [] ==> before[|before| - 1].end < after[0].start && iv.start < after[0].start
    ensures TotalLength(Sweep(Absorb(before, iv), after)) >= TotalLength(before) + TotalLength(after)
  {
    AbsorbGain(before, iv);
    var last := before[|before| - 1];
    var f := if iv.start <= last.end then last.end else iv.start;
    SweepGains(Absorb(before, iv), after, TotalLength(before), f);
  }

  /** The new span sorts after the first `k` spans of the merged list, with `k > 0`. */
  lemma SweepGainsAfterPrefix(s: seq<Interval>, k: nat, iv: Interval)
    requires Canonical(s) && IsValid(iv) && 0 < k <= |s|
    requires k < |s| ==> iv.start < s[k].start
    ensures TotalLength(Sweep(Absorb(s[..k], iv), s[k..])) >= TotalLength(s)
  {
    TotalLengthSplit(s, k);
    CanonicalSuffix(s, k);
    SweepGainsAfterAbsorb(s[..k], iv, s[k..]);
  }

  lemma CanonicalSuffix(s: seq<Interval>, k: nat)
    requires Canonical(s) && 0 < k <= |s|
    ensures Canonical(s[k..])
    ensures k < |s| ==> s[..k][k - 1].end < s[k..][0].start
  {
    CanonicalSlice(s, k, |s|);
    assert s[k..|s|] == s[k..];
    if k < |s| {
      assert s[k - 1].end < s[k].start;
    }
  }

  /** Sorting a sorted list with one span appended inserts that span. */
  lemma SortAppendSorted(s: seq<Interval>, x: Interval)
    requires SortedByStart(s)
    ensures SortByStart(s + [x]) == InsertByStart(s, x)
  {
    var s' := s + [x];
    assert s'[..|s'| - 1] == s && s'[|s'| - 1] == x;
    SortOfSorted(s);
  }

  /** Adding a valid span to a non-empty merged list sweeps the list with the span inserted. */
  lemma AddedAsSweep(s: seq<Interval>, iv: Interval)
    requires Canonical(s) && s != [] && IsValid(iv)
    ensures var k := InsertionPoint(s, iv);
            var u := s[..k] + [iv] + s[k..];
            Added(s, iv.start, iv.end) == Sweep([u[0]], u[1..])
  {
    CanonicalIsOrdered(s);
    SortAppendSorted(s, iv);
    InsertSplit(s, iv);
    var k := InsertionPoint(s, iv);
    var u := s[..k] + [iv] + s[k..];
    assert Merged(s + [iv]) == MergeSorted(u);
  }

  /** The new span sorts before every span of the merged list. */
  lemma SweepGainsInsertedFirst(s: seq<Interval>, iv: Interval)
    requires Canonical(s) && IsValid(iv) && s != [] && iv.start < s[0].start
    ensures var u := s[..0] + [iv] + s[0..]; TotalLength(Sweep([u[0]], u[1..])) >= TotalLength(s)
  {
    var u := s[..0] + [iv] + s[0..];
    assert u[0] == iv && u[1..] == s;
    assert [iv][..0] == [];
    SweepGains([iv], s, 0.0, iv.start);
  }

  /** The new span sorts after the first `k` spans of the merged list, `k > 0`. */
  lemma SweepGainsInsertedLater(s: seq<Interval>, k: nat, iv: Interval)
    requires Canonical(s) && IsValid(iv) && 0 < k <= |s|
    requires k < |s| ==> iv.start < s[k].start
    ensures var u := s[..k] + [iv] + s[k..]; TotalLength(Sweep([u[0]], u[1..])) >= TotalLength(s)
  {
    InsertedTail(s, k, iv);
    SweepThroughInsert(s, k, iv);
    SweepGainsAfterPrefix(s, k, iv);
  }

  lemma InsertedTail(s: seq<Interval>, k: nat, iv: Interval)
    requires 0 < k <= |s|
    ensures var u := s[..k] + [iv] + s[k..]; u[0] == s[0] && u[1..] == s[1..k] + ([iv] + s[k..])
  {
    var u := s[..k] + [iv] + s[k..];
    assert u[1..] == s[1..k] + ([iv] + s[k..]);
  }

  /** Adding a span to a merged list never decreases the unique watched time. */
  lemma AddedNeverDecreasesTotal(s: seq<Interval>, start: real, end: real)
    requires Canonical(s)
    ensures TotalLength(Added(s, start, end)) >= TotalLength(s)
  {
    if start >= end || start < 0.0 {
      return;
    }
    var iv := Interval(start, end);
    if s == [] {
      assert [] + [iv] == [iv];
      return;
    }
    AddedAsSweep(s, iv);
    var k := InsertionPoint(s, iv);
    if k == 0 {
      SweepGainsInsertedFirst(s, iv);
    } else {
      SweepGainsInsertedLater(s, k, iv);
    }
  }

  /**
   * A span that starts inside or exactly at the end of a single watched span is
   * folded into it: [a, b] then [c, d] with a <= c <= b gives [a, max(b, d)].
   */
  lemma AdjacentSpansMerge(a: real, b: real, c: real, d: real)
    requires 0.0 <= a < b && a <= c <= b && c < d
    ensures Added(Added([], a, b), c, d) == [Interval(a, Max(b, d))]
  {
    var first, second := Interval(a, b), Interval(c, d);
    AddedToEmpty(first);
    SortedPair(first, second);
    MergedPair(first, second);
  }

  lemma AddedToEmpty(iv: Interval)
    requires IsValid(iv)
    ensures Added([], iv.start, iv.end) == [iv]
  {
    var empty: seq<Interval> := [];
    assert empty + [iv] == [iv];
    assert |[iv]| <= 1;
  }

  lemma SortedPair(x: Interval, y: Interval)
    requires x.start <= y.start
    ensures SortByStart([x] + [y]) == [x, y]
  {
    assert [x] + [y] == [x, y];
    SortOfSorted([x, y]);
  }

  lemma MergedPair(x: Interval, y: Interval)
    requires SortByStart([x] + [y]) == [x, y] && y.start <= x.end
    ensures Merged([x] + [y]) == [Interval(x.start, Max(x.end, y.end))]
  {
    var u := [x, y];
    var joined := Interval(x.start, Max(x.end, y.end));
    assert u[0] == x && u[1..] == [y];
    assert [y][0] == y && [y][1..] == [];
    assert Absorb([x], y) == [joined] by {
      assert [x][..0] + [joined] == [joined];
    }
    assert Sweep([x], [y]) == Sweep([joined], []);
    assert MergeSorted(u) == [joined];
  }

  /** The watched percentage of a merged list never drops when a span is added. */
  lemma ProgressNeverDecreases(s: seq<Interval>, start: real, end: real, duration: real)
    requires Canonical(s) && duration >= 0.0
    ensures Percentage(TotalLength(Added(s, start, end)), duration) >= Percentage(TotalLength(s), duration)
  {
    AddedNeverDecreasesTotal(s, start, end);
    PercentageMonotone(TotalLength(s), TotalLength(Added(s, start, end)), duration);
  }
}
