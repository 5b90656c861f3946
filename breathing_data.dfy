/**
 * hooks/metrics/initialState.ts and the per-sample state update of
 * hooks/useBreathingData.ts: four fixed-length FIFO buffers (raw samples,
 * moving average, deviation, timestamps) and everything derived from them.
 * The accelerometer subscription and the clock are outside the model: each
 * update receives the sample and the current time as arguments.
 */
module BreathingData {
  import opened Types
  import opened Utils
  import opened BreathingAnalysis

  /** `Array(n).fill(v)`. */
  function Filled<T>(n: nat, v: T): (r: seq<T>)
    ensures |r| == n && forall k :: 0 <= k < n ==> r[k] == v
  {
    seq(n, _ => v)
  }

  /** initialState, created at time `createdAt` (ms). */
  function InitialState(cfg: Config, createdAt: int): HistoryState {
    var n := cfg.maxDataPoints;
    HistoryState(
      Filled(n, 0.0), Filled(n, 0.0), Filled(n, 0.0),
      Peaks([], []),
      Intervals([], [], []),
      Filled(n, createdAt),
      Unknown, NoDetail, 0.0,
      Range(-1.0, 1.0), Range(-1.0, 1.0), Range(-1.0, 1.0))
  }

  /** The four buffers have one common length. */
  predicate SameLengths(s: HistoryState) {
    |s.yMA| == |s.y| && |s.yDeviation| == |s.y| && |s.timestamp| == |s.y|
  }

  /** The initial state: `maxDataPoints` zeros in each value buffer, one
      creation time in every timestamp slot, no extrema, no intervals, the
      unknown verdict with no detail and period 0, and the default ranges. */
  lemma InitialStateShape(cfg: Config, createdAt: int)
    ensures var s := InitialState(cfg, createdAt);
      SameLengths(s) && |s.y| == cfg.maxDataPoints &&
      (forall k :: 0 <= k < |s.y| ==> s.y[k] == 0.0 && s.yMA[k] == 0.0 && s.yDeviation[k] == 0.0) &&
      (forall k :: 0 <= k < |s.timestamp| ==> s.timestamp[k] == createdAt) &&
      s.peaks.maxima == [] && s.peaks.minima == [] &&
      s.intervals.maxToMax == [] && s.intervals.maxToMin == [] && s.intervals.minToMax == [] &&
      s.breathingType == Unknown && s.breathingDetail == NoDetail && s.currentPeriod == 0.0 &&
      s.yRange == Range(-1.0, 1.0) && s.yMARange == Range(-1.0, 1.0) && s.yDeviationRange == Range(-1.0, 1.0)
  {
  }

  /** `s.slice(1)`: everything but the oldest element; nothing when
      empty. */
  function DropOldest<T>(s: seq<T>): (r: seq<T>)
    ensures |r| == if s == [] then 0 else |s| - 1
    ensures forall k :: 0 <= k < |r| ==> r[k] == s[k + 1]
  {
    if s == [] then [] else s[1..]
  }

  /** `[...s.slice(1), x]`: drop the oldest element (none when empty) and
      append the newest. */
  function Shift<T>(s: seq<T>, x: T): (r: seq<T>)
    ensures |r| == if s == [] then 1 else |s|
    ensures r[|r| - 1] == x
    ensures forall k :: 0 <= k < |r| - 1 ==> r[k] == s[k + 1]
  {
    DropOldest(s) + [x]
  }

  /** The derived part of the state, recomputed from the smoothed buffer and
      the timestamps alone. */
  function Derived(yMA: seq<real>, timestamp: seq<int>, cfg: Config): (Peaks, Intervals, Breathing)
    requires |timestamp| == |yMA| && cfg.recentBreaths >= 1
  {
    var peaks := PeaksOf(yMA, timestamp, cfg.peakPatience, cfg.peakThreshold);
    var intervals := IntervalsOf(peaks.maxima, peaks.minima);
    (peaks, intervals, DetermineBreathingType(intervals, cfg))
  }

  /** The setHistory updater for one sample `sample` taken at time `now`.
      It reads the four buffers of the previous state and nothing else. */
  function Update(prev: HistoryState, sample: real, now: int, cfg: Config): HistoryState
    requires cfg.Valid() && |prev.timestamp| == |prev.yMA|
  {
    UpdateBuffers(prev.y, prev.yMA, prev.yDeviation, prev.timestamp, sample, now, cfg)
  }

  /** How far a sample lies from its moving average. */
  function Deviation(sample: real, ma: real): real {
    sample - ma
  }

  function UpdateBuffers(y: seq<real>, yMA: seq<real>, yDeviation: seq<real>, timestamp: seq<int>,
                         sample: real, now: int, cfg: Config): HistoryState
    requires cfg.Valid() && |timestamp| == |yMA|
  {
    var newY := Shift(y, sample);
    var ma := CalculateMA(newY, cfg.maWindow);
    var newYMA := Shift(yMA, ma);
    var newYDeviation := Shift(yDeviation, Deviation(sample, ma));
    var newTimestamp := Shift(timestamp, now);
    var (peaks, intervals, breathing) := Derived(newYMA, newTimestamp, cfg);
    HistoryState(newY, newYMA, newYDeviation, peaks, intervals, newTimestamp,
                 breathing.kind, breathing.detail, breathing.period,
                 CalculateRange(newY), CalculateRange(newYMA), CalculateRange(newYDeviation))
  }

  /** One update shifts every buffer by one: the oldest element leaves, the
      rest move one place towards the front, and the new sample, average,
      deviation and time arrive at the back. Non-empty buffers keep their
      length. */
  lemma UpdateShifts(prev: HistoryState, sample: real, now: int, cfg: Config)
    requires cfg.Valid() && SameLengths(prev) && |prev.y| > 0
    ensures var s := Update(prev, sample, now, cfg);
      SameLengths(s) && |s.y| == |prev.y| &&
      (forall k :: 0 <= k < |s.y| - 1 ==>
         s.y[k] == prev.y[k + 1] && s.yMA[k] == prev.yMA[k + 1] &&
         s.yDeviation[k] == prev.yDeviation[k + 1] && s.timestamp[k] == prev.timestamp[k + 1]) &&
      s.y[|s.y| - 1] == sample && s.timestamp[|s.timestamp| - 1] == now
  {
  }

  /** The newest average is taken over the new raw buffer, so it includes
      the new sample, and the newest deviation is the sample minus that
      average. */
  lemma UpdateSmoothing(prev: HistoryState, sample: real, now: int, cfg: Config)
    requires cfg.Valid() && |prev.timestamp| == |prev.yMA|
    ensures var s := Update(prev, sample, now, cfg);
      var last := |s.y| - 1;
      |s.y| > 0 && |s.yMA| > 0 && |s.yDeviation| > 0 &&
      s.y[last] == sample &&
      s.yMA[|s.yMA| - 1] == CalculateMA(s.y, cfg.maWindow) &&
      s.yDeviation[|s.yDeviation| - 1] + s.yMA[|s.yMA| - 1] == sample
  {
  }

  /** Only the four buffers of the previous state matter: its peaks,
      intervals, verdict and ranges play no part in the update. */
  lemma UpdateIgnoresDerived(prev: HistoryState, other: HistoryState, sample: real, now: int, cfg: Config)
    requires cfg.Valid() && |prev.timestamp| == |prev.yMA|
    requires other.y == prev.y && other.yMA == prev.yMA && other.yDeviation == prev.yDeviation
    requires other.timestamp == prev.timestamp
    ensures Update(other, sample, now, cfg) == Update(prev, sample, now, cfg)
  {
  }

  /** Peaks, intervals and the verdict are recomputed from the new smoothed
      buffer and the new timestamps, and the ranges enclose the new
      buffers. */
  lemma UpdateRecomputes(prev: HistoryState, sample: real, now: int, cfg: Config)
    requires cfg.Valid() && |prev.timestamp| == |prev.yMA|
    ensures var s := Update(prev, sample, now, cfg);
      |s.timestamp| == |s.yMA| &&
      Derived(s.yMA, s.timestamp, cfg) == (s.peaks, s.intervals, Breathing(s.breathingType, s.currentPeriod, s.breathingDetail))
  {
  }

  /** Each of the three ranges is calculateRange of its new buffer, so it
      encloses that buffer. */
  lemma UpdateRanges(prev: HistoryState, sample: real, now: int, cfg: Config)
    requires cfg.Valid() && |prev.timestamp| == |prev.yMA|
    ensures var s := Update(prev, sample, now, cfg);
      s.yRange == CalculateRange(s.y) && s.yMARange == CalculateRange(s.yMA) &&
      s.yDeviationRange == CalculateRange(s.yDeviation) &&
      (forall k :: 0 <= k < |s.y| ==> s.yRange.min <= s.y[k] <= s.yRange.max) &&
      (forall k :: 0 <= k < |s.yMA| ==> s.yMARange.min <= s.yMA[k] <= s.yMARange.max) &&
      (forall k :: 0 <= k < |s.yDeviation| ==> s.yDeviationRange.min <= s.yDeviation[k] <= s.yDeviationRange.max)
  {
  }

  /** A session: the updates for `samples[k]` taken at `times[k]`, in
      order. */
  function Run(s: HistoryState, samples: seq<real>, times: seq<int>, cfg: Config): (r: HistoryState)
    requires cfg.Valid() && |times| == |samples| && SameLengths(s) && |s.y| > 0
    ensures SameLengths(r) && |r.y| == |s.y|
    decreases |samples|
  {
    if samples == [] then s
    else
      UpdateShifts(s, samples[0], times[0], cfg);
      Run(Update(s, samples[0], times[0], cfg), samples[1..], times[1..], cfg)
  }

  /** Over a whole session the buffers stay at their capacity and act as
      sliding windows: the raw buffer holds the last `|s.y|` elements of the
      old buffer followed by every sample, and likewise the timestamps. */
  lemma {:induction false} RunWindow(s: HistoryState, samples: seq<real>, times: seq<int>, cfg: Config)
    requires cfg.Valid() && |times| == |samples| && SameLengths(s) && |s.y| > 0
    ensures var r := Run(s, samples, times, cfg);
      r.y == (s.y + samples)[|samples|..] && r.timestamp == (s.timestamp + times)[|times|..]
    decreases |samples|
  {
    if samples != [] {
      var next := Update(s, samples[0], times[0], cfg);
      var rest, restTimes := samples[1..], times[1..];
      UpdateShifts(s, samples[0], times[0], cfg);
      assert Run(s, samples, times, cfg) == Run(next, rest, restTimes, cfg);
      RunWindow(next, rest, restTimes, cfg);
      SlideOne(s.y, samples, next.y);
      SlideOne(s.timestamp, times, next.timestamp);
    }
  }

  /** Sliding by one and then by the rest is sliding by all. */
  lemma SlideOne<T>(buffer: seq<T>, xs: seq<T>, next: seq<T>)
    requires |buffer| > 0 && |xs| > 0
    requires |next| == |buffer| && next[|next| - 1] == xs[0]
    requires forall k :: 0 <= k < |next| - 1 ==> next[k] == buffer[k + 1]
    ensures (next + xs[1..])[|xs| - 1..] == (buffer + xs)[|xs|..]
  {
    assert next == (buffer + xs)[1..|buffer| + 1];
    assert next + xs[1..] == (buffer + xs)[1..];
  }
}
