/**
 * hooks/metrics/breathingAnalysis.ts (and the `breathingAnalysis` object of
 * _backup/App.js, whose detectPeaks and calculateIntervals are the same
 * code): extrema detection over the smoothed buffer, the interval series
 * derived from the extrema, and the breathing verdict.
 */
module BreathingAnalysis {
  import opened Types
  import opened Utils

  datatype Extremum = Maximum | Minimum

  // ---------------------------------------------------------------------
  // detectPeaks
  // ---------------------------------------------------------------------

  /** `data[i]` is the largest (or smallest) value of its window
      `data[i - p .. i + p]`. */
  predicate IsWindowExtremum(data: seq<real>, i: int, p: nat, kind: Extremum)
    requires p <= i && i + p < |data|
  {
    if kind == Maximum then forall j :: i - p <= j <= i + p ==> data[j] <= data[i]
    else forall j :: i - p <= j <= i + p ==> data[i] <= data[j]
  }

  /** The window test is the source's `data[i] === Math.max(...window)`
      (or `Math.min`), the window being `data.slice(i - p, i + p + 1)`. */
  lemma WindowExtremumIsMathMax(data: seq<real>, i: int, p: nat, kind: Extremum)
    requires p <= i && i + p < |data|
    ensures var window := data[i - p..i + p + 1];
      IsWindowExtremum(data, i, p, kind) <==>
      data[i] == (if kind == Maximum then SeqMax(window) else SeqMin(window))
  {
    var window := data[i - p..i + p + 1];
    assert window[p] == data[i];
    assert forall j :: i - p <= j <= i + p ==> data[j] == window[j - (i - p)];
  }

  /** The window and threshold tests of an index, without the patience
      test. */
  predicate Qualifies(data: seq<real>, i: int, p: nat, thr: real, kind: Extremum)
    requires p <= i && i + p < |data|
  {
    IsWindowExtremum(data, i, p, kind) && Abs(data[i]) > thr
  }

  /** The marker `lastMaxIndex` / `lastMinIndex`: the index of the last
      accepted extremum, `-p` before the first. */
  function LastIndex(ps: seq<Peak>, p: nat): int {
    if ps == [] then -(p as int) else ps[|ps| - 1].index
  }

  /** One past the last index the scan visits; the scan visits nothing when
      the buffer is shorter than `2 * p`. */
  function ScanEnd(len: nat, p: nat): (n: nat)
    ensures p <= n && (n == p || n + p == len)
  {
    if len >= 2 * p then len - p else p
  }

  /** The indices below `n` the scan may take for one kind: entry `i`
      holds when the whole window of `i` fits in the buffer and `i` passes
      the window and threshold tests. The patience test is the scan's
      own. */
  function CandidatesUpTo(data: seq<real>, p: nat, thr: real, kind: Extremum, n: nat): (q: seq<bool>)
    requires n <= |data|
    ensures |q| == n
  {
    if n == 0 then []
    else
      var i := n - 1;
      CandidatesUpTo(data, p, thr, kind, i) + [p <= i && i + p < |data| && Qualifies(data, i, p, thr, kind)]
  }

  function Candidates(data: seq<real>, p: nat, thr: real, kind: Extremum): (q: seq<bool>)
    ensures |q| == |data|
  {
    CandidatesUpTo(data, p, thr, kind, |data|)
  }

  /** An index is a candidate exactly when its window fits and it passes
      the window and threshold tests. */
  lemma CandidateAt(data: seq<real>, p: nat, thr: real, kind: Extremum, i: int)
    requires 0 <= i < |data|
    ensures Candidates(data, p, thr, kind)[i] <==> p <= i && i + p < |data| && Qualifies(data, i, p, thr, kind)
  {
    CandidateUpTo(data, p, thr, kind, |data|, i);
  }

  lemma {:induction false} CandidateUpTo(data: seq<real>, p: nat, thr: real, kind: Extremum, n: nat, i: int)
    requires 0 <= i < n <= |data|
    ensures CandidatesUpTo(data, p, thr, kind, n)[i] <==> p <= i && i + p < |data| && Qualifies(data, i, p, thr, kind)
  {
    if i < n - 1 {
      CandidateUpTo(data, p, thr, kind, n - 1, i);
    }
  }

  /** The extrema accepted by the scan over indices `p .. n - 1`, where
      `q` marks the candidates. */
  function Scan(q: seq<bool>, data: seq<real>, ts: seq<int>, p: nat, n: nat): seq<Peak>
    requires |q| == |data| && |ts| == |data|
    requires n <= p || n <= |data|
  {
    if n <= p then []
    else
      var prev := Scan(q, data, ts, p, n - 1);
      var i := n - 1;
      if q[i] && i - LastIndex(prev, p) >= p
      then prev + [Peak(data[i], ts[i], i)]
      else prev
  }

  /** The extrema of one kind that detectPeaks reports. */
  function Accepted(data: seq<real>, ts: seq<int>, p: nat, thr: real, kind: Extremum): seq<Peak>
    requires |ts| == |data|
  {
    Scan(Candidates(data, p, thr, kind), data, ts, p, ScanEnd(|data|, p))
  }

  /** Every extremum in `s` has its whole window inside the buffer, passes
      the window and threshold tests, and records the value and timestamp
      at its index. */
  predicate AllQualify(s: seq<Peak>, data: seq<real>, ts: seq<int>, p: nat, thr: real, kind: Extremum)
    requires |ts| == |data|
  {
    forall k :: 0 <= k < |s| ==>
      p <= s[k].index && s[k].index + p < |data| &&
      Qualifies(data, s[k].index, p, thr, kind) &&
      s[k] == Peak(data[s[k].index], ts[s[k].index], s[k].index)
  }

  /** The result of detectPeaks as a function of its inputs: two lists of
      qualifying extrema, each in increasing index order, at least `p`
      apart. */
  function PeaksOf(data: seq<real>, ts: seq<int>, p: nat, thr: real): (r: Peaks)
    requires |ts| == |data|
    ensures AllQualify(r.maxima, data, ts, p, thr, Maximum) && Spaced(r.maxima, p)
    ensures AllQualify(r.minima, data, ts, p, thr, Minimum) && Spaced(r.minima, p)
  {
    AcceptedSound(data, ts, p, thr, Maximum);
    AcceptedSound(data, ts, p, thr, Minimum);
    Peaks(Accepted(data, ts, p, thr, Maximum), Accepted(data, ts, p, thr, Minimum))
  }

  /** detectPeaks: one pass over the indices whose full window fits, with
      the maximum and the minimum tests applied independently. */
  method DetectPeaks(data: seq<real>, timestamps: seq<int>, p: nat, thr: real) returns (r: Peaks)
    requires |timestamps| == |data|
    ensures r == PeaksOf(data, timestamps, p, thr)
  {
    ghost var qMax := Candidates(data, p, thr, Maximum);
    ghost var qMin := Candidates(data, p, thr, Minimum);
    var maxima: seq<Peak> := [];
    var minima: seq<Peak> := [];
    var lastMaxIndex := -(p as int);
    var lastMinIndex := -(p as int);
    var i := p;
    while i < |data| - p
      invariant p <= i <= ScanEnd(|data|, p)
      invariant maxima == Scan(qMax, data, timestamps, p, i)
      invariant minima == Scan(qMin, data, timestamps, p, i)
      invariant lastMaxIndex == LastIndex(maxima, p)
      invariant lastMinIndex == LastIndex(minima, p)
    {
      var currentValue := data[i];
      ScanStep(qMax, data, timestamps, p, i + 1);
      CandidateAt(data, p, thr, Maximum, i);
      if Qualifies(data, i, p, thr, Maximum) && i - lastMaxIndex >= p {
        maxima := maxima + [Peak(currentValue, timestamps[i], i)];
        lastMaxIndex := i;
      }
      assert maxima == Scan(qMax, data, timestamps, p, i + 1) && lastMaxIndex == LastIndex(maxima, p);
      ScanStep(qMin, data, timestamps, p, i + 1);
      CandidateAt(data, p, thr, Minimum, i);
      if Qualifies(data, i, p, thr, Minimum) && i - lastMinIndex >= p {
        minima := minima + [Peak(currentValue, timestamps[i], i)];
        lastMinIndex := i;
      }
      assert minima == Scan(qMin, data, timestamps, p, i + 1) && lastMinIndex == LastIndex(minima, p);
      i := i + 1;
    }
    r := Peaks(maxima, minima);
  }

  /** One step of the scan: index `n - 1` is appended exactly when it is a
      candidate and lies at least `p` past the last accepted index. */
  lemma ScanStep(q: seq<bool>, data: seq<real>, ts: seq<int>, p: nat, n: nat)
    requires |q| == |data| && |ts| == |data|
    requires p < n <= |data|
    ensures var prev := Scan(q, data, ts, p, n - 1);
      var accept := q[n - 1] && n - 1 - LastIndex(prev, p) >= p;
      (accept ==> Scan(q, data, ts, p, n) == prev + [Peak(data[n - 1], ts[n - 1], n - 1)]) &&
      (!accept ==> Scan(q, data, ts, p, n) == prev)
  {
  }

  /** The accepted indices of the scan up to `n` are candidates in
      `p .. n - 1`, and each accepted extremum records the value and
      timestamp at its index. */
  lemma {:induction false} ScanBounds(q: seq<bool>, data: seq<real>, ts: seq<int>, p: nat, n: nat)
    requires |q| == |data| && |ts| == |data|
    requires n <= p || n <= |data|
    ensures var s := Scan(q, data, ts, p, n);
      (forall k :: 0 <= k < |s| ==> p <= s[k].index < n) &&
      (forall k :: 0 <= k < |s| ==> q[s[k].index] && s[k] == Peak(data[s[k].index], ts[s[k].index], s[k].index))
  {
    if n > p {
      var prev := Scan(q, data, ts, p, n - 1);
      ScanBounds(q, data, ts, p, n - 1);
      ScanStep(q, data, ts, p, n);
    }
  }

  /** Indices strictly increase along `s` and any two are at least `p`
      apart. */
  predicate Spaced(s: seq<Peak>, p: nat) {
    forall k, k' :: 0 <= k < k' < |s| ==> s[k].index < s[k'].index && s[k].index + p <= s[k'].index
  }

  /** Appending an extremum past the last one, by at least `p`, keeps a
      list spaced. */
  lemma SpacedAppend(prev: seq<Peak>, x: Peak, p: nat)
    requires Spaced(prev, p)
    requires prev != [] ==> prev[|prev| - 1].index < x.index && prev[|prev| - 1].index + p <= x.index
    ensures Spaced(prev + [x], p)
  {
    var s := prev + [x];
    forall k, k' | 0 <= k < k' < |s|
      ensures s[k].index < s[k'].index && s[k].index + p <= s[k'].index
    {
      assert s[k] == prev[k];
      if k' == |prev| {
        assert prev[k].index <= prev[|prev| - 1].index;
      } else {
        assert s[k'] == prev[k'];
      }
    }
  }

  /** Accepted indices strictly increase and any two are at least `p`
      apart. */
  lemma {:induction false} ScanSpaced(q: seq<bool>, data: seq<real>, ts: seq<int>, p: nat, n: nat)
    requires |q| == |data| && |ts| == |data|
    requires n <= p || n <= |data|
    ensures Spaced(Scan(q, data, ts, p, n), p)
  {
    if n > p {
      var prev := Scan(q, data, ts, p, n - 1);
      ScanSpaced(q, data, ts, p, n - 1);
      ScanStep(q, data, ts, p, n);
      if q[n - 1] && n - 1 - LastIndex(prev, p) >= p {
        ScanBounds(q, data, ts, p, n - 1);
        SpacedAppend(prev, Peak(data[n - 1], ts[n - 1], n - 1), p);
      }
    }
  }

  /** A shorter scan is a prefix of a longer one: later indices never undo
      an earlier acceptance. */
  lemma {:induction false} ScanPrefix(q: seq<bool>, data: seq<real>, ts: seq<int>, p: nat, m: nat, n: nat)
    requires |q| == |data| && |ts| == |data|
    requires m <= n
    requires n <= p || n <= |data|
    ensures Scan(q, data, ts, p, m) <= Scan(q, data, ts, p, n)
    decreases n - m
  {
    if m < n {
      ScanPrefix(q, data, ts, p, m, n - 1);
      if n > p {
        ScanStep(q, data, ts, p, n);
      }
    }
  }

  /** The list `s` of extrema contains one at index `i`. */
  predicate Takes(s: seq<Peak>, i: int) {
    exists k :: 0 <= k < |s| && s[k].index == i
  }

  /** Every extremum of `s` before index `i` lies at least `p` before it. */
  predicate ClearOfEarlier(s: seq<Peak>, i: int, p: nat) {
    forall k :: 0 <= k < |s| && s[k].index < i ==> s[k].index + p <= i
  }

  /** A candidate at least `p` past every earlier accepted index is
      accepted; the first candidate always is, since the marker starts at
      `-p`. */
  lemma ScanAcceptedIf(q: seq<bool>, data: seq<real>, ts: seq<int>, p: nat, n: nat, i: int)
    requires |q| == |data| && |ts| == |data|
    requires n <= |data|
    requires p <= i < n && q[i]
    requires ClearOfEarlier(Scan(q, data, ts, p, n), i, p)
    ensures Takes(Scan(q, data, ts, p, n), i)
  {
    var s := Scan(q, data, ts, p, n);
    var before := Scan(q, data, ts, p, i);
    ScanPrefix(q, data, ts, p, i, n);
    ScanBounds(q, data, ts, p, i);
    if before != [] {
      var last := |before| - 1;
      assert s[last] == before[last];
    }
    ScanStep(q, data, ts, p, i + 1);
    var upTo := Scan(q, data, ts, p, i + 1);
    assert upTo == before + [Peak(data[i], ts[i], i)];
    ScanPrefix(q, data, ts, p, i + 1, n);
    assert s[|before|] == upTo[|before|];
  }

  /** The acceptance rule exactly: an index in range is accepted if and
      only if it is a candidate and every earlier accepted index lies at
      least `p` before it. */
  lemma ScanExact(q: seq<bool>, data: seq<real>, ts: seq<int>, p: nat, n: nat, i: int)
    requires |q| == |data| && |ts| == |data|
    requires n <= |data|
    requires p <= i < n
    ensures var s := Scan(q, data, ts, p, n);
      Takes(s, i) <==> q[i] && ClearOfEarlier(s, i, p)
  {
    var s := Scan(q, data, ts, p, n);
    ScanBounds(q, data, ts, p, n);
    ScanSpaced(q, data, ts, p, n);
    if q[i] && ClearOfEarlier(s, i, p) {
      ScanAcceptedIf(q, data, ts, p, n, i);
    }
  }

  /** What detectPeaks reports for one kind: every reported extremum is
      the maximum (or minimum) of its full window `data[i-p..i+p]`, exceeds
      the threshold in magnitude and records the value and timestamp at
      its index; reported indices strictly increase, at least `p` apart. */
  lemma AcceptedSound(data: seq<real>, ts: seq<int>, p: nat, thr: real, kind: Extremum)
    requires |ts| == |data|
    ensures var s := Accepted(data, ts, p, thr, kind);
      (forall k :: 0 <= k < |s| ==>
        p <= s[k].index && s[k].index + p < |data| &&
        Qualifies(data, s[k].index, p, thr, kind) &&
        s[k] == Peak(data[s[k].index], ts[s[k].index], s[k].index)) &&
      Spaced(s, p)
  {
    var q := Candidates(data, p, thr, kind);
    var n := ScanEnd(|data|, p);
    var s := Scan(q, data, ts, p, n);
    ScanBounds(q, data, ts, p, n);
    ScanSpaced(q, data, ts, p, n);
    forall k | 0 <= k < |s|
      ensures p <= s[k].index && s[k].index + p < |data| && Qualifies(data, s[k].index, p, thr, kind)
    {
      assert 0 <= k < |Scan(q, data, ts, p, n)|;
      assert p <= Scan(q, data, ts, p, n)[k].index;
      var i := s[k].index;
      assert p <= i < n;
      assert n <= |data|;
      assert q[i];
      CandidateAt(data, p, thr, kind, i);
    }
  }

  /** The acceptance rule of detectPeaks exactly: an index whose window
      fits is reported if and only if it passes the window and threshold
      tests and every earlier reported index lies at least `p` before
      it. In particular, on a plateau only the leftmost index is taken,
      unless a later one is at least `p` past the last one taken. */
  lemma AcceptedExact(data: seq<real>, ts: seq<int>, p: nat, thr: real, kind: Extremum, i: int)
    requires |ts| == |data|
    requires p <= i && i + p < |data|
    ensures var s := Accepted(data, ts, p, thr, kind);
      Takes(s, i) <==> Qualifies(data, i, p, thr, kind) && ClearOfEarlier(s, i, p)
  {
    var q := Candidates(data, p, thr, kind);
    ScanExact(q, data, ts, p, ScanEnd(|data|, p), i);
    CandidateAt(data, p, thr, kind, i);
  }

  /** The maximum and minimum tests are independent: an index whose window
      is constant and whose value exceeds the threshold in magnitude passes
      both. */
  lemma ConstantWindowQualifiesBoth(data: seq<real>, i: int, p: nat, thr: real)
    requires p <= i && i + p < |data|
    requires forall j :: i - p <= j <= i + p ==> data[j] == data[i]
    requires Abs(data[i]) > thr
    ensures var window := data[i - p..i + p + 1];
      data[i] == SeqMax(window) && data[i] == SeqMin(window)
    ensures Qualifies(data, i, p, thr, Maximum) && Qualifies(data, i, p, thr, Minimum)
  {
    WindowExtremumIsMathMax(data, i, p, Maximum);
    WindowExtremumIsMathMax(data, i, p, Minimum);
  }

  /** A plateau of seven equal samples with patience 2: the scan visits
      indices 2, 3 and 4, takes 2, skips 3 (only one step after 2) and takes
      4, and does so in both lists. */
  lemma PlateauExample(data: seq<real>, ts: seq<int>, c: real, thr: real)
    requires |data| == 7 && |ts| == 7
    requires forall j :: 0 <= j < 7 ==> data[j] == c
    requires Abs(c) > thr
    ensures var expected := [Peak(c, ts[2], 2), Peak(c, ts[4], 4)];
      PeaksOf(data, ts, 2, thr) == Peaks(expected, expected)
  {
    PlateauScan(data, ts, c, thr, Maximum);
    PlateauScan(data, ts, c, thr, Minimum);
  }

  lemma PlateauScan(data: seq<real>, ts: seq<int>, c: real, thr: real, kind: Extremum)
    requires |data| == 7 && |ts| == 7
    requires forall j :: 0 <= j < 7 ==> data[j] == c
    requires Abs(c) > thr
    ensures Accepted(data, ts, 2, thr, kind) == [Peak(c, ts[2], 2), Peak(c, ts[4], 4)]
  {
    var q := Candidates(data, 2, thr, kind);
    ConstantWindowQualifiesBoth(data, 2, 2, thr);
    ConstantWindowQualifiesBoth(data, 4, 2, thr);
    CandidateAt(data, 2, thr, kind, 2);
    CandidateAt(data, 2, thr, kind, 4);
    assert ScanEnd(7, 2) == 5;
    PatienceSkips(q, data, ts);
  }

  /** With patience 2, candidates at 2 and 4 are both taken and 3, between
      them, never is. */
  lemma PatienceSkips(q: seq<bool>, data: seq<real>, ts: seq<int>)
    requires |q| == 7 && |data| == 7 && |ts| == 7 && q[2] && q[4]
    ensures Scan(q, data, ts, 2, 5) == [Peak(data[2], ts[2], 2), Peak(data[4], ts[4], 4)]
  {
    ScanStep(q, data, ts, 2, 3);
    assert Scan(q, data, ts, 2, 3) == [Peak(data[2], ts[2], 2)];
    ScanStep(q, data, ts, 2, 4);
    ScanStep(q, data, ts, 2, 5);
  }

  // ---------------------------------------------------------------------
  // calculateIntervals
  // ---------------------------------------------------------------------

  /** An interval from `start` to `end` (ms), its length in seconds. */
  function Span(start: int, end: int): (r: Interval)
    ensures r.startTime == start && r.endTime == end
    ensures start <= end ==> r.interval >= 0.0
  {
    Interval(((end - start) as real) / 1000.0, start, end)
  }

  /** The max-to-max intervals between the first `n` maxima. */
  function MaxToMax(maxima: seq<Peak>, n: nat): seq<Interval>
    requires n <= |maxima|
  {
    if n <= 1 then [] else MaxToMax(maxima, n - 1) + [Span(maxima[n - 2].timestamp, maxima[n - 1].timestamp)]
  }

  /** One interval per pair of consecutive maxima, in order. */
  lemma {:induction false} MaxToMaxEntries(maxima: seq<Peak>, n: nat)
    requires n <= |maxima|
    ensures |MaxToMax(maxima, n)| == if n == 0 then 0 else n - 1
    ensures forall k :: 1 <= k < n ==>
      MaxToMax(maxima, n)[k - 1] == Interval(((maxima[k].timestamp - maxima[k - 1].timestamp) as real) / 1000.0,
                                             maxima[k - 1].timestamp, maxima[k].timestamp)
  {
    if n > 1 {
      MaxToMaxEntries(maxima, n - 1);
    }
  }

  function Timestamps(ps: seq<Peak>): (r: seq<int>)
    ensures |r| == |ps| && forall k :: 0 <= k < |ps| ==> r[k] == ps[k].timestamp
  {
    seq(|ps|, k requires 0 <= k < |ps| => ps[k].timestamp)
  }

  predicate Sorted(s: seq<int>) {
    forall i, j :: 0 <= i < j < |s| ==> s[i] <= s[j]
  }

  /** One insertion step of the sort. The clause on `r[0]` is what lets
      the recursive case put `s[0]` in front of the rest and stay sorted. */
  function Insert(x: int, s: seq<int>): (r: seq<int>)
    requires Sorted(s)
    ensures Sorted(r) && multiset(r) == multiset(s) + multiset{x}
    ensures |r| == |s| + 1 && r[0] == if s != [] && s[0] < x then s[0] else x
  {
    if s == [] then [x]
    else if x <= s[0] then [x] + s
    else
      assert s == [s[0]] + s[1..];
      var rest := Insert(x, s[1..]);
      SortedCons(s[0], rest);
      [s[0]] + rest
  }

  /** A value no larger than the head of a sorted sequence extends it. */
  lemma SortedCons(y: int, r: seq<int>)
    requires Sorted(r) && (r != [] ==> y <= r[0])
    ensures Sorted([y] + r)
  {
    var t := [y] + r;
    forall i, j | 0 <= i < j < |t|
      ensures t[i] <= t[j]
    {
      if i == 0 {
        assert t[j] == r[j - 1] && r[0] <= r[j - 1];
      } else {
        assert t[i] == r[i - 1] && t[j] == r[j - 1];
      }
    }
  }

  /** `sort((a, b) => a.timestamp - b.timestamp)` as far as the rest of
      calculateIntervals can see: only the timestamps of the merged peaks are
      read, and the sorted sequence of timestamps is the same for every
      sorting algorithm. */
  function SortInts(s: seq<int>): (r: seq<int>)
    ensures Sorted(r) && multiset(r) == multiset(s) && |r| == |s|
  {
    if s == [] then []
    else
      assert s == s[..|s| - 1] + [s[|s| - 1]];
      var r := Insert(s[|s| - 1], SortInts(s[..|s| - 1]));
      assert |r| == |multiset(r)|;
      r
  }

  /** `maxima.some(m => m.timestamp === t)`. */
  predicate HasTimestamp(ps: seq<Peak>, t: int) {
    exists k :: 0 <= k < |ps| && ps[k].timestamp == t
  }

  /** What an adjacent pair of the merged timestamps contributes. */
  datatype PairKind = Inhale | Exhale | Skip

  /** The if / else-if of the pair loop: maximum then minimum is an inhale;
      otherwise minimum then maximum is an exhale; anything else is
      skipped. */
  function Classify(current: int, next: int, maxima: seq<Peak>, minima: seq<Peak>): PairKind {
    if HasTimestamp(maxima, current) && HasTimestamp(minima, next) then Inhale
    else if HasTimestamp(minima, current) && HasTimestamp(maxima, next) then Exhale
    else Skip
  }

  /** The intervals of one kind among the first `n` adjacent pairs of
      `all`. */
  function Pairs(all: seq<int>, maxima: seq<Peak>, minima: seq<Peak>, kind: PairKind, n: nat): seq<Interval>
    requires n == 0 || n < |all|
  {
    if n == 0 then []
    else
      Pairs(all, maxima, minima, kind, n - 1) +
      (if Classify(all[n - 1], all[n], maxima, minima) == kind then [Span(all[n - 1], all[n])] else [])
  }

  function PairCount(len: nat): nat {
    if len == 0 then 0 else len - 1
  }

  /** The merged, sorted timestamps of all extrema. */
  function Merged(maxima: seq<Peak>, minima: seq<Peak>): (r: seq<int>)
    ensures |r| == |maxima| + |minima| && Sorted(r)
    ensures multiset(r) == multiset(Timestamps(maxima + minima))
  {
    SortInts(Timestamps(maxima + minima))
  }

  /** The result of calculateIntervals as a function of its inputs: one
      max-to-max interval per pair of consecutive maxima, at most one inhale
      or exhale per adjacent pair of the merge, and none of either without
      minima. */
  function IntervalsOf(maxima: seq<Peak>, minima: seq<Peak>): (r: Intervals)
    ensures |r.maxToMax| == PairCount(|maxima|)
    ensures |r.maxToMin| + |r.minToMax| <= PairCount(|maxima| + |minima|)
    ensures minima == [] ==> r.maxToMin == [] && r.minToMax == []
  {
    var all := Merged(maxima, minima);
    var n := PairCount(|all|);
    MaxToMaxEntries(maxima, |maxima|);
    PairsCount(all, maxima, minima, n);
    NoMinimaNoTransitions(all, maxima, n);
    Intervals(MaxToMax(maxima, |maxima|), Pairs(all, maxima, minima, Inhale, n), Pairs(all, maxima, minima, Exhale, n))
  }

  /** calculateIntervals: the max-to-max loop over consecutive maxima, then
      the loop over adjacent pairs of the timestamp-sorted merge. */
  method CalculateIntervals(maxima: seq<Peak>, minima: seq<Peak>) returns (r: Intervals)
    ensures r == IntervalsOf(maxima, minima)
  {
    var allPeaks := Merged(maxima, minima);
    var maxToMax: seq<Interval> := [];
    var maxToMin: seq<Interval> := [];
    var minToMax: seq<Interval> := [];
    var i := 1;
    while i < |maxima|
      invariant 1 <= i && (i <= |maxima| || i == 1)
      invariant maxToMax == MaxToMax(maxima, if i <= |maxima| then i else |maxima|)
    {
      maxToMax := maxToMax + [Span(maxima[i - 1].timestamp, maxima[i].timestamp)];
      i := i + 1;
    }
    var n := PairCount(|allPeaks|);
    i := 0;
    while i < |allPeaks| - 1
      invariant 0 <= i <= n
      invariant maxToMin == Pairs(allPeaks, maxima, minima, Inhale, i)
      invariant minToMax == Pairs(allPeaks, maxima, minima, Exhale, i)
    {
      var current := allPeaks[i];
      var next := allPeaks[i + 1];
      var interval := Span(current, next);
      var currentIsMax := HasTimestamp(maxima, current);
      var nextIsMin := HasTimestamp(minima, next);
      var currentIsMin := HasTimestamp(minima, current);
      var nextIsMax := HasTimestamp(maxima, next);
      assert Classify(current, next, maxima, minima) ==
        if currentIsMax && nextIsMin then Inhale else if currentIsMin && nextIsMax then Exhale else Skip;
      PairsStep(allPeaks, maxima, minima, i);
      if currentIsMax && nextIsMin {
        maxToMin := maxToMin + [interval];
      } else if currentIsMin && nextIsMax {
        minToMax := minToMax + [interval];
      }
      i := i + 1;
    }
    r := Intervals(maxToMax, maxToMin, minToMax);
  }

  /** Pair `n` adds its interval to the list of its own kind and to no
      other. */
  lemma PairsStep(all: seq<int>, maxima: seq<Peak>, minima: seq<Peak>, n: nat)
    requires n + 1 < |all|
    ensures var kind := Classify(all[n], all[n + 1], maxima, minima);
      var span := Span(all[n], all[n + 1]);
      Pairs(all, maxima, minima, Inhale, n + 1) ==
        Pairs(all, maxima, minima, Inhale, n) + (if kind == Inhale then [span] else []) &&
      Pairs(all, maxima, minima, Exhale, n + 1) ==
        Pairs(all, maxima, minima, Exhale, n) + (if kind == Exhale then [span] else [])
  {
  }

  /** Each interval of `s` ends no later than the next one starts. */
  predicate Chronological(s: seq<Interval>) {
    forall a, b :: 0 <= a < b < |s| ==> s[a].endTime <= s[b].startTime
  }

  /** Every interval of `s` ends by time `t`. */
  predicate EndsBy(s: seq<Interval>, t: int) {
    forall a :: 0 <= a < |s| ==> s[a].endTime <= t
  }

  /** On a sorted merge the pair loop pushes intervals in time order, so
      the last entries of each list are the most recent breaths; all of
      them end by the `n`-th timestamp. */
  lemma {:induction false} PairsChronological(all: seq<int>, maxima: seq<Peak>, minima: seq<Peak>, kind: PairKind, n: nat)
    requires (n == 0 || n < |all|) && Sorted(all)
    ensures Chronological(Pairs(all, maxima, minima, kind, n))
    ensures n > 0 ==> EndsBy(Pairs(all, maxima, minima, kind, n), all[n])
  {
    if n > 0 {
      var prev := Pairs(all, maxima, minima, kind, n - 1);
      PairsChronological(all, maxima, minima, kind, n - 1);
      assert EndsBy(prev, all[n - 1]) by {
        if n - 1 == 0 {
          assert prev == [];
        }
      }
      assert all[n - 1] <= all[n];
      if Classify(all[n - 1], all[n], maxima, minima) == kind {
        var s := prev + [Span(all[n - 1], all[n])];
        assert Pairs(all, maxima, minima, kind, n) == s;
        assert Chronological(s) by {
          forall a, b | 0 <= a < b < |s|
            ensures s[a].endTime <= s[b].startTime
          {
            if b == |s| - 1 {
              assert s[a] == prev[a];
            } else {
              assert s[a] == prev[a] && s[b] == prev[b];
            }
          }
        }
        assert EndsBy(s, all[n]) by {
          forall a | 0 <= a < |s|
            ensures s[a].endTime <= all[n]
          {
            if a < |prev| {
              assert s[a] == prev[a];
            }
          }
        }
      } else {
        assert Pairs(all, maxima, minima, kind, n) == prev;
      }
    }
  }

  /** Each adjacent pair yields at most one inhale or exhale, so together
      there are at most as many as there are pairs. */
  lemma {:induction false} PairsCount(all: seq<int>, maxima: seq<Peak>, minima: seq<Peak>, n: nat)
    requires n == 0 || n < |all|
    ensures |Pairs(all, maxima, minima, Inhale, n)| + |Pairs(all, maxima, minima, Exhale, n)| <= n
  {
    if n > 0 {
      PairsCount(all, maxima, minima, n - 1);
    }
  }

  /** `x` is the interval of one of the first `n` adjacent pairs of `all`,
      and that pair is classified `kind`. */
  predicate FromPair(all: seq<int>, maxima: seq<Peak>, minima: seq<Peak>, kind: PairKind, n: nat, x: Interval) {
    exists j :: 0 <= j < n && j + 1 < |all| &&
      x == Span(all[j], all[j + 1]) && Classify(all[j], all[j + 1], maxima, minima) == kind
  }

  /** Every inhale or exhale is the interval of an adjacent pair of the
      merge classified as its own kind. */
  lemma {:induction false} PairsFromPairs(all: seq<int>, maxima: seq<Peak>, minima: seq<Peak>, kind: PairKind, n: nat)
    requires n == 0 || n < |all|
    ensures forall iv <- Pairs(all, maxima, minima, kind, n) :: FromPair(all, maxima, minima, kind, n, iv)
  {
    if n > 0 {
      var prev := Pairs(all, maxima, minima, kind, n - 1);
      PairsFromPairs(all, maxima, minima, kind, n - 1);
      forall iv <- prev
        ensures FromPair(all, maxima, minima, kind, n, iv)
      {
        FromPairWiden(all, maxima, minima, kind, n - 1, n, iv);
      }
      var span := Span(all[n - 1], all[n]);
      if Classify(all[n - 1], all[n], maxima, minima) == kind {
        assert FromPair(all, maxima, minima, kind, n, span);
        assert Pairs(all, maxima, minima, kind, n) == prev + [span];
      } else {
        assert Pairs(all, maxima, minima, kind, n) == prev;
      }
    }
  }

  /** A pair among the first `m` is also among the first `n >= m`. */
  lemma FromPairWiden(all: seq<int>, maxima: seq<Peak>, minima: seq<Peak>, kind: PairKind, m: nat, n: nat, x: Interval)
    requires m <= n && FromPair(all, maxima, minima, kind, m, x)
    ensures FromPair(all, maxima, minima, kind, n, x)
  {
    var j :| 0 <= j < m && j + 1 < |all| &&
      x == Span(all[j], all[j + 1]) && Classify(all[j], all[j + 1], maxima, minima) == kind;
  }

  /** Every inhale or exhale is the interval of an adjacent pair of the
      merge classified as its own kind, starts at a maximum and ends at a
      minimum (inhale) or the reverse (exhale), and never runs backwards in
      time on a sorted merge. */
  lemma PairsEndpoints(all: seq<int>, maxima: seq<Peak>, minima: seq<Peak>, kind: PairKind, n: nat)
    requires n == 0 || n < |all|
    requires kind != Skip
    ensures forall iv <- Pairs(all, maxima, minima, kind, n) ::
      FromPair(all, maxima, minima, kind, n, iv) &&
      (kind == Inhale ==> HasTimestamp(maxima, iv.startTime) && HasTimestamp(minima, iv.endTime)) &&
      (kind == Exhale ==> HasTimestamp(minima, iv.startTime) && HasTimestamp(maxima, iv.endTime)) &&
      (Sorted(all) ==> iv.startTime <= iv.endTime && iv.interval >= 0.0)
  {
    PairsFromPairs(all, maxima, minima, kind, n);
    forall iv <- Pairs(all, maxima, minima, kind, n)
      ensures kind == Inhale ==> HasTimestamp(maxima, iv.startTime) && HasTimestamp(minima, iv.endTime)
      ensures kind == Exhale ==> HasTimestamp(minima, iv.startTime) && HasTimestamp(maxima, iv.endTime)
      ensures Sorted(all) ==> iv.startTime <= iv.endTime && iv.interval >= 0.0
    {
      PairEndpoints(all, maxima, minima, kind, n, iv);
    }
  }

  /** The interval of an adjacent pair classified `kind` runs between a
      maximum and a minimum in the order `kind` says, forwards in time on a
      sorted merge. */
  lemma PairEndpoints(all: seq<int>, maxima: seq<Peak>, minima: seq<Peak>, kind: PairKind, n: nat, iv: Interval)
    requires kind != Skip && FromPair(all, maxima, minima, kind, n, iv)
    ensures kind == Inhale ==> HasTimestamp(maxima, iv.startTime) && HasTimestamp(minima, iv.endTime)
    ensures kind == Exhale ==> HasTimestamp(minima, iv.startTime) && HasTimestamp(maxima, iv.endTime)
    ensures Sorted(all) ==> iv.startTime <= iv.endTime && iv.interval >= 0.0
  {
    var j :| 0 <= j < n && j + 1 < |all| &&
      iv == Span(all[j], all[j + 1]) && Classify(all[j], all[j + 1], maxima, minima) == kind;
    if Sorted(all) {
      assert all[j] <= all[j + 1];
    }
  }

  /** Conversely, every adjacent pair classified `kind` contributes its
      interval: a max→min pair is always an inhale, and a min→max pair that
      is not also max→min is always an exhale. */
  lemma {:induction false} PairsComplete(all: seq<int>, maxima: seq<Peak>, minima: seq<Peak>, kind: PairKind, n: nat, j: nat)
    requires n < |all| && j < n
    requires Classify(all[j], all[j + 1], maxima, minima) == kind
    ensures Span(all[j], all[j + 1]) in Pairs(all, maxima, minima, kind, n)
  {
    if j < n - 1 {
      PairsComplete(all, maxima, minima, kind, n - 1, j);
    }
  }

  /** Two maxima (or two minima) next to each other in the merge produce
      nothing. */
  lemma SameKindPairSkipped(current: int, next: int, maxima: seq<Peak>, minima: seq<Peak>)
    ensures !HasTimestamp(minima, current) && !HasTimestamp(minima, next) ==>
      Classify(current, next, maxima, minima) == Skip
    ensures !HasTimestamp(maxima, current) && !HasTimestamp(maxima, next) ==>
      Classify(current, next, maxima, minima) == Skip
  {
  }

  /** Without minima there are no inhales and no exhales. */
  lemma {:induction false} NoMinimaNoTransitions(all: seq<int>, maxima: seq<Peak>, n: nat)
    requires n == 0 || n < |all|
    ensures Pairs(all, maxima, [], Inhale, n) == [] && Pairs(all, maxima, [], Exhale, n) == []
  {
    if n > 0 {
      NoMinimaNoTransitions(all, maxima, n - 1);
    }
  }

  /** The intervals of calculateIntervals: max-to-max as stated entry by
      entry, at most `|maxima| + |minima| - 1` inhales and exhales together,
      every inhale and exhale between a maximum and a minimum with a
      non-negative length, and the inhales (exhales) exactly the intervals
      of the adjacent pairs of the merge classified inhale (exhale), in
      time order. */
  lemma IntervalsProperties(maxima: seq<Peak>, minima: seq<Peak>)
    ensures var iv := IntervalsOf(maxima, minima);
      var all := Merged(maxima, minima);
      var n := PairCount(|all|);
      (forall x :: x in iv.maxToMin <==> FromPair(all, maxima, minima, Inhale, n, x)) &&
      (forall x :: x in iv.minToMax <==> FromPair(all, maxima, minima, Exhale, n, x)) &&
      Chronological(iv.maxToMin) && Chronological(iv.minToMax) &&
      |iv.maxToMax| == PairCount(|maxima|) &&
      (forall k :: 1 <= k < |maxima| ==>
        iv.maxToMax[k - 1] == Interval(((maxima[k].timestamp - maxima[k - 1].timestamp) as real) / 1000.0,
                                       maxima[k - 1].timestamp, maxima[k].timestamp)) &&
      |iv.maxToMin| + |iv.minToMax| <= PairCount(|maxima| + |minima|) &&
      (forall inhale <- iv.maxToMin ::
        HasTimestamp(maxima, inhale.startTime) && HasTimestamp(minima, inhale.endTime) && inhale.interval >= 0.0) &&
      (forall exhale <- iv.minToMax ::
        HasTimestamp(minima, exhale.startTime) && HasTimestamp(maxima, exhale.endTime) && exhale.interval >= 0.0)
  {
    var all := Merged(maxima, minima);
    var n := PairCount(|all|);
    MaxToMaxEntries(maxima, |maxima|);
    PairsCount(all, maxima, minima, n);
    PairsEndpoints(all, maxima, minima, Inhale, n);
    PairsEndpoints(all, maxima, minima, Exhale, n);
    PairsChronological(all, maxima, minima, Inhale, n);
    PairsChronological(all, maxima, minima, Exhale, n);
    PairsExactly(all, maxima, minima, Inhale, n);
    PairsExactly(all, maxima, minima, Exhale, n);
  }

  /** The intervals of one kind are exactly those of the adjacent pairs
      classified as that kind. */
  lemma PairsExactly(all: seq<int>, maxima: seq<Peak>, minima: seq<Peak>, kind: PairKind, n: nat)
    requires n == 0 || n < |all|
    ensures forall x :: x in Pairs(all, maxima, minima, kind, n) <==> FromPair(all, maxima, minima, kind, n, x)
  {
    PairsFromPairs(all, maxima, minima, kind, n);
    forall x | FromPair(all, maxima, minima, kind, n, x)
      ensures x in Pairs(all, maxima, minima, kind, n)
    {
      var j :| 0 <= j < n && j + 1 < |all| &&
        x == Span(all[j], all[j + 1]) && Classify(all[j], all[j + 1], maxima, minima) == kind;
      PairsComplete(all, maxima, minima, kind, n, j);
    }
  }

  /** A maximum and a minimum at the same timestamp give a zero-length
      inhale: intervals may be empty. */
  lemma SharedTimestampExample(peak: Peak)
    ensures IntervalsOf([peak], [peak]) == Intervals([], [Span(peak.timestamp, peak.timestamp)], [])
  {
    var maxima := [peak];
    var t := peak.timestamp;
    var all := Merged(maxima, maxima);
    assert Timestamps(maxima + maxima) == [t, t];
    SortTwoEqual(t);
    assert HasTimestamp(maxima, t);
    assert Pairs(all, maxima, maxima, Inhale, 1) == [Span(t, t)];
    assert Pairs(all, maxima, maxima, Exhale, 1) == [];
  }

  lemma SortTwoEqual(x: int)
    ensures SortInts([x, x]) == [x, x]
  {
    assert [x, x][..1] == [x] && [x][..0] == [];
  }

  /** Alternating extrema at times `a < b < c < d`, maxima at `a` and `c`
      and minima at `b` and `d`, give the inhales `a..b` and `c..d`, the
      exhale `b..c`, and one max-to-max interval `a..c`. */
  lemma AlternatingExample(maxima: seq<Peak>, minima: seq<Peak>, a: int, b: int, c: int, d: int)
    requires a < b < c < d
    requires |maxima| == 2 && maxima[0].timestamp == a && maxima[1].timestamp == c
    requires |minima| == 2 && minima[0].timestamp == b && minima[1].timestamp == d
    ensures IntervalsOf(maxima, minima) == Intervals([Span(a, c)], [Span(a, b), Span(c, d)], [Span(b, c)])
  {
    var all := Merged(maxima, minima);
    AlternatingMerge(maxima, minima, a, b, c, d);
    AlternatingPairs(maxima, minima, a, b, c, d);
    AlternatingTransitions(all, maxima, minima, a, b, c, d);
    assert MaxToMax(maxima, 2) == [Span(a, c)];
  }

  lemma AlternatingTransitions(all: seq<int>, maxima: seq<Peak>, minima: seq<Peak>, a: int, b: int, c: int, d: int)
    requires all == [a, b, c, d]
    requires Classify(a, b, maxima, minima) == Inhale
    requires Classify(b, c, maxima, minima) == Exhale
    requires Classify(c, d, maxima, minima) == Inhale
    ensures Pairs(all, maxima, minima, Inhale, 3) == [Span(a, b), Span(c, d)]
    ensures Pairs(all, maxima, minima, Exhale, 3) == [Span(b, c)]
  {
    assert Pairs(all, maxima, minima, Inhale, 1) == [Span(a, b)];
    assert Pairs(all, maxima, minima, Inhale, 2) == [Span(a, b)];
    assert Pairs(all, maxima, minima, Exhale, 1) == [];
    assert Pairs(all, maxima, minima, Exhale, 2) == [Span(b, c)];
  }

  lemma AlternatingMerge(maxima: seq<Peak>, minima: seq<Peak>, a: int, b: int, c: int, d: int)
    requires a < b < c < d
    requires |maxima| == 2 && maxima[0].timestamp == a && maxima[1].timestamp == c
    requires |minima| == 2 && minima[0].timestamp == b && minima[1].timestamp == d
    ensures Merged(maxima, minima) == [a, b, c, d]
  {
    AlternatingTimestamps(maxima, minima, a, b, c, d);
    SortAlternating(Timestamps(maxima + minima), a, b, c, d);
  }

  lemma AlternatingTimestamps(maxima: seq<Peak>, minima: seq<Peak>, a: int, b: int, c: int, d: int)
    requires |maxima| == 2 && maxima[0].timestamp == a && maxima[1].timestamp == c
    requires |minima| == 2 && minima[0].timestamp == b && minima[1].timestamp == d
    ensures Timestamps(maxima + minima) == [a, c, b, d]
  {
    var t := Timestamps(maxima + minima);
    assert t[0] == a && t[1] == c && t[2] == b && t[3] == d;
  }

  lemma SortAlternating(t: seq<int>, a: int, b: int, c: int, d: int)
    requires a < b < c < d
    requires t == [a, c, b, d]
    ensures SortInts(t) == [a, b, c, d]
  {
    SortedFour(SortInts(t), a, b, c, d);
  }

  lemma AlternatingPairs(maxima: seq<Peak>, minima: seq<Peak>, a: int, b: int, c: int, d: int)
    requires a < b < c < d
    requires |maxima| == 2 && maxima[0].timestamp == a && maxima[1].timestamp == c
    requires |minima| == 2 && minima[0].timestamp == b && minima[1].timestamp == d
    ensures Classify(a, b, maxima, minima) == Inhale
    ensures Classify(b, c, maxima, minima) == Exhale
    ensures Classify(c, d, maxima, minima) == Inhale
  {
    assert HasTimestamp(maxima, a) && HasTimestamp(maxima, c);
    assert HasTimestamp(minima, b) && HasTimestamp(minima, d);
    assert !HasTimestamp(maxima, b);
  }

  /** A sorted sequence holding four distinct increasing values once each
      lists them in order. */
  lemma SortedFour(s: seq<int>, a: int, b: int, c: int, d: int)
    requires a < b < c < d
    requires Sorted(s) && multiset(s) == multiset([a, c, b, d])
    ensures s == [a, b, c, d]
  {
    assert |s| == |multiset(s)| == 4;
    assert a in multiset(s) && b in multiset(s) && c in multiset(s) && d in multiset(s);
    var ja :| 0 <= ja < 4 && s[ja] == a;
    var jb :| 0 <= jb < 4 && s[jb] == b;
    var jc :| 0 <= jc < 4 && s[jc] == c;
    var jd :| 0 <= jd < 4 && s[jd] == d;
    // a smaller value sits at a smaller position of a sorted sequence
    assert ja < jb < jc < jd;
  }

  // ---------------------------------------------------------------------
  // determineBreathingType
  // ---------------------------------------------------------------------

  /** `.map(interval => interval.interval)`. */
  function Durations(iv: seq<Interval>): (r: seq<real>)
    ensures |r| == |iv| && forall k :: 0 <= k < |iv| ==> r[k] == iv[k].interval
  {
    seq(|iv|, k requires 0 <= k < |iv| => iv[k].interval)
  }

  /** The deep-breath condition on the average exhale. */
  predicate ExhaleOk(rule: ExhaleRule, avgExhale: real) {
    match rule
    case AtMost(b) => avgExhale <= b
    case AtLeast(b) => avgExhale >= b
    case UndefinedBound => false
  }

  /** The sentinel returned while too few intervals exist. */
  const CalculatingResult := Breathing(Calculating, 0.0, NoDetail)

  /** The mean of the last `cfg.recentBreaths` entries, divided by
      `cfg.recentBreaths`. */
  function RecentAverage(iv: seq<Interval>, cfg: Config): real
    requires cfg.recentBreaths >= 1
  {
    Sum(Durations(LastN(iv, cfg.recentBreaths))) / (cfg.recentBreaths as real)
  }

  /** The inhale or exhale series is stable when the population deviation
      of its last `cfg.recentBreaths` durations is below the threshold. */
  predicate RecentStable(iv: seq<Interval>, cfg: Config)
    requires cfg.recentBreaths >= 1 && |iv| >= cfg.recentBreaths
  {
    StdDevBelow(Durations(LastN(iv, cfg.recentBreaths)), RecentAverage(iv, cfg), cfg.stabilityThreshold)
  }

  /** determineBreathingType: the sentinel below `cfg.recentBreaths`
      inhales or exhales; otherwise depth from the two averages, stability
      from the two deviations, and the period as the sum of the averages. */
  function DetermineBreathingType(intervals: Intervals, cfg: Config): (b: Breathing)
    requires cfg.recentBreaths >= 1
    ensures b == CalculatingResult <==>
      (|intervals.maxToMin| < cfg.recentBreaths || |intervals.minToMax| < cfg.recentBreaths)
    ensures b.kind != Unknown
  {
    if |intervals.maxToMin| < cfg.recentBreaths || |intervals.minToMax| < cfg.recentBreaths then
      CalculatingResult
    else
      var avgInhale := RecentAverage(intervals.maxToMin, cfg);
      var avgExhale := RecentAverage(intervals.minToMax, cfg);
      var stable := RecentStable(intervals.maxToMin, cfg) && RecentStable(intervals.minToMax, cfg);
      var deep := avgInhale >= cfg.deepInhaleMin && ExhaleOk(cfg.deepExhale, avgExhale);
      Breathing(Classified(if deep then Deep else Normal, if stable then Stable else Unstable),
                avgInhale + avgExhale, Averages(avgInhale, avgExhale))
  }

  /** The last `n` durations all equal `c`: the recent average is `c`. */
  lemma RecentAverageOfConstant(iv: seq<Interval>, cfg: Config, c: real)
    requires cfg.recentBreaths >= 1 && |iv| >= cfg.recentBreaths
    requires forall k :: |iv| - cfg.recentBreaths <= k < |iv| ==> iv[k].interval == c
    ensures RecentAverage(iv, cfg) == c
  {
    var d := Durations(LastN(iv, cfg.recentBreaths));
    assert forall k :: 0 <= k < |d| ==> d[k] == iv[|iv| - cfg.recentBreaths + k].interval;
    SumConstant(d, c);
  }

  /** Enough breaths whose recent inhales all last `ci` seconds and whose
      recent exhales all last `ce` seconds give a stable verdict with period
      `ci + ce` and those two averages, under the source's threshold 0.4. */
  lemma SteadyBreathingIsStable(intervals: Intervals, cfg: Config, ci: real, ce: real)
    requires cfg.recentBreaths >= 1 && cfg.stabilityThreshold == 0.4
    requires |intervals.maxToMin| >= cfg.recentBreaths && |intervals.minToMax| >= cfg.recentBreaths
    requires forall k :: |intervals.maxToMin| - cfg.recentBreaths <= k < |intervals.maxToMin| ==> intervals.maxToMin[k].interval == ci
    requires forall k :: |intervals.minToMax| - cfg.recentBreaths <= k < |intervals.minToMax| ==> intervals.minToMax[k].interval == ce
    ensures var b := DetermineBreathingType(intervals, cfg);
      b.kind.Classified? && b.kind.stability == Stable && b.period == ci + ce && b.detail == Averages(ci, ce)
  {
    RecentSteady(intervals.maxToMin, cfg, ci);
    RecentSteady(intervals.minToMax, cfg, ce);
  }

  /** A series whose recent durations all equal `c` averages `c` and is
      stable under the source's threshold 0.4. */
  lemma RecentSteady(iv: seq<Interval>, cfg: Config, c: real)
    requires cfg.recentBreaths >= 1 && cfg.stabilityThreshold == 0.4 && |iv| >= cfg.recentBreaths
    requires forall k :: |iv| - cfg.recentBreaths <= k < |iv| ==> iv[k].interval == c
    ensures RecentAverage(iv, cfg) == c && RecentStable(iv, cfg)
    ensures Variance(Durations(LastN(iv, cfg.recentBreaths)), c) == 0.0
  {
    RecentAverageOfConstant(iv, cfg, c);
    var d := Durations(LastN(iv, cfg.recentBreaths));
    assert forall k :: 0 <= k < |d| ==> d[k] == iv[|iv| - cfg.recentBreaths + k].interval;
    VarianceOfConstant(d, c);
  }

  /** Once enough breaths exist, the verdict depends on the last
      `cfg.recentBreaths` inhales and exhales only: older intervals and the
      max-to-max list play no part. */
  lemma RecentTailsDecide(a: Intervals, b: Intervals, cfg: Config)
    requires cfg.recentBreaths >= 1
    requires |a.maxToMin| >= cfg.recentBreaths && |a.minToMax| >= cfg.recentBreaths
    requires |b.maxToMin| >= cfg.recentBreaths && |b.minToMax| >= cfg.recentBreaths
    requires LastN(a.maxToMin, cfg.recentBreaths) == LastN(b.maxToMin, cfg.recentBreaths)
    requires LastN(a.minToMax, cfg.recentBreaths) == LastN(b.minToMax, cfg.recentBreaths)
    ensures DetermineBreathingType(a, cfg) == DetermineBreathingType(b, cfg)
  {
  }

  /** Uneven inhales of 2, 6 and 2 seconds are unstable: their deviation
      around the average 10/3 is well above 0.4. */
  lemma UnevenBreathingIsUnstable(cfg: Config)
    requires cfg.recentBreaths == 3 && cfg.stabilityThreshold == 0.4
    ensures var iv := Intervals([], [Interval(2.0, 0, 0), Interval(6.0, 0, 0), Interval(2.0, 0, 0)],
                                    [Interval(1.0, 0, 0), Interval(1.0, 0, 0), Interval(1.0, 0, 0)]);
      var b := DetermineBreathingType(iv, cfg);
      b.kind.Classified? && b.kind.stability == Unstable
  {
    var iv := Intervals([], [Interval(2.0, 0, 0), Interval(6.0, 0, 0), Interval(2.0, 0, 0)],
                            [Interval(1.0, 0, 0), Interval(1.0, 0, 0), Interval(1.0, 0, 0)]);
    var d := Durations(LastN(iv.maxToMin, 3));
    assert d == [2.0, 6.0, 2.0];
    Sum3(d);
    var m := RecentAverage(iv.maxToMin, cfg);
    assert m == 10.0 / 3.0;
    SumSquares3(d, m);
    assert SumSquares(d, m) == 32.0 / 3.0;
  }

  lemma Sum3(s: seq<real>)
    requires |s| == 3
    ensures Sum(s) == s[0] + s[1] + s[2]
  {
    var one, two := s[..1], s[..2];
    assert two[..1] == one && one[..0] == [];
    assert Sum(one) == s[0];
    assert Sum(two) == s[0] + s[1];
  }

  lemma SumSquares3(s: seq<real>, mean: real)
    requires |s| == 3
    ensures SumSquares(s, mean) == Square(s[0] - mean) + Square(s[1] - mean) + Square(s[2] - mean)
  {
    var one, two := s[..1], s[..2];
    assert two[..1] == one && one[..0] == [];
    assert SumSquares(one, mean) == Square(s[0] - mean);
    assert SumSquares(two, mean) == Square(s[0] - mean) + Square(s[1] - mean);
  }

  /** Steady breathing: enough inhales and exhales, the recent ones of
      constant length. */
  predicate Steady(intervals: Intervals, cfg: Config, ci: real, ce: real) {
    cfg.recentBreaths >= 1 &&
    |intervals.maxToMin| >= cfg.recentBreaths && |intervals.minToMax| >= cfg.recentBreaths &&
    (forall k :: |intervals.maxToMin| - cfg.recentBreaths <= k < |intervals.maxToMin| ==> intervals.maxToMin[k].interval == ci) &&
    (forall k :: |intervals.minToMax| - cfg.recentBreaths <= k < |intervals.minToMax| ==> intervals.minToMax[k].interval == ce)
  }

  /** The current revision as written: the exhale comparison is against an
      undefined constant, so no input is ever classified deep, not even
      slow steady breathing of long inhales and long exhales. */
  lemma CurrentNeverDeep(intervals: Intervals, ci: real, ce: real)
    requires Steady(intervals, CurrentConfig, ci, ce)
    ensures DetermineBreathingType(intervals, CurrentConfig) ==
      Breathing(Classified(Normal, Stable), ci + ce, Averages(ci, ce))
  {
    SteadyBreathingIsStable(intervals, CurrentConfig, ci, ce);
  }

  /** The current revision as written never reports deep breathing, for
      any intervals at all. */
  lemma NeverDeepAsWritten(intervals: Intervals)
    ensures var b := DetermineBreathingType(intervals, CurrentConfig);
      b.kind.Classified? ==> b.kind.depth == Normal
  {
  }

  /** The current revision as intended, with a lower bound `minExhale` on
      the average exhale: steady breathing whose inhales reach 3 s and whose
      exhales reach the bound is classified deep and stable. */
  lemma IntendedDetectsDeep(intervals: Intervals, minExhale: real, ci: real, ce: real)
    requires Steady(intervals, IntendedConfig(minExhale), ci, ce)
    requires ci >= 3.0 && ce >= minExhale
    ensures DetermineBreathingType(intervals, IntendedConfig(minExhale)) ==
      Breathing(Classified(Deep, Stable), ci + ce, Averages(ci, ce))
  {
    SteadyBreathingIsStable(intervals, IntendedConfig(minExhale), ci, ce);
  }
}
