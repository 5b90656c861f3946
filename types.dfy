/**
 * The shapes of hooks/metrics/types.ts as value types, and the tuning
 * constants of hooks/metrics/constants.ts (and of the older copy in
 * _backup/App.js) gathered into one configuration value.
 */
module Types {

  /** A display range `{min, max}`. */
  datatype Range = Range(min: real, max: real)

  /** An accepted extremum: its smoothed value, its timestamp (ms) and its
      position in the smoothed buffer. */
  datatype Peak = Peak(value: real, timestamp: int, index: int)

  /** A time span between two extrema: its length in seconds and its two
      endpoints in ms. */
  datatype Interval = Interval(interval: real, startTime: int, endTime: int)

  datatype Peaks = Peaks(maxima: seq<Peak>, minima: seq<Peak>)

  datatype Intervals = Intervals(maxToMax: seq<Interval>, maxToMin: seq<Interval>, minToMax: seq<Interval>)

  datatype Depth = Normal | Deep

  datatype Stability = Stable | Unstable

  /** The breathing verdict. `Unknown` is the label of the initial state
      ('unknown'); `Calculating` is the sentinel shown while fewer than
      RECENT_BREATHS inhale or exhale intervals exist. */
  datatype BreathingType = Unknown | Calculating | Classified(depth: Depth, stability: Stability)

  /** The detail line. The source renders the two averages with one decimal;
      the model keeps the averages themselves. */
  datatype Detail = NoDetail | Averages(avgInhale: real, avgExhale: real)

  datatype Breathing = Breathing(kind: BreathingType, period: real, detail: Detail)

  /** The per-session snapshot (HistoryState). */
  datatype HistoryState = HistoryState(
    y: seq<real>,
    yMA: seq<real>,
    yDeviation: seq<real>,
    peaks: Peaks,
    intervals: Intervals,
    timestamp: seq<int>,
    breathingType: BreathingType,
    breathingDetail: Detail,
    currentPeriod: real,
    yRange: Range,
    yMARange: Range,
    yDeviationRange: Range)

  /** The deep-breath condition on the average exhale. The older revision
      demands `avgExhale <= DEEP_EXHALE_MAX`; the current revision compares
      `avgExhale >= DEEP_EXHALE_MIN`, a constant that is never defined, so the
      comparison is against `undefined` and always false (`UndefinedBound`). */
  datatype ExhaleRule = AtMost(bound: real) | AtLeast(bound: real) | UndefinedBound

  /** The tuning constants. */
  datatype Config = Config(
    maxDataPoints: nat,
    maWindow: nat,
    peakThreshold: real,
    peakPatience: nat,
    deepInhaleMin: real,
    deepExhale: ExhaleRule,
    stabilityThreshold: real,
    recentBreaths: nat)
  {
    /** What the divisions and slices of the source need to make sense:
        a non-empty averaging window and a non-empty tail of breaths. */
    predicate Valid() {
      maWindow >= 1 && recentBreaths >= 1
    }
  }

  /** hooks/metrics/constants.ts as written (DEEP_EXHALE_MIN is missing). */
  const CurrentConfig := Config(350, 50, 0.1, 27, 3.0, UndefinedBound, 0.4, 3)

  /** The constants of _backup/App.js. */
  const BackupConfig := Config(350, 50, 0.1, 27, 3.0, AtMost(4.0), 0.4, 3)

  /** The current revision as evidently intended: a lower bound on the
      average exhale, whose value the source never fixes. */
  function IntendedConfig(deepExhaleMin: real): (c: Config)
    ensures c.Valid() && c.deepExhale == AtLeast(deepExhaleMin)
    ensures c == CurrentConfig.(deepExhale := AtLeast(deepExhaleMin))
  {
    Config(350, 50, 0.1, 27, 3.0, AtLeast(deepExhaleMin), 0.4, 3)
  }
}
