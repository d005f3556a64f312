/**
 * The records the coefficient-update pipeline reads and writes: a market
 * with its odds and bounds, one audit row per committed change, and the
 * result the service hands back to its caller.
 */
module Models {

  /** A wall-clock reading (`time.Time`), in nanoseconds since the Unix epoch. */
  type Time = int

  const NanosPerSecond: int := 1_000_000_000

  /**
   * `t.Unix()`: the whole seconds since the epoch. Go keeps the nanoseconds
   * of a time in [0, 1e9), so this is the floor, also before the epoch.
   */
  function UnixSeconds(t: Time): (s: int)
    ensures s * NanosPerSecond <= t < (s + 1) * NanosPerSecond
  {
    t / NanosPerSecond
  }

  /** A bettable proposition of an event and its current price ("coefficient"). */
  datatype Market = Market(
    id: nat,
    name: string,
    eventID: nat,
    currentCoefficient: real,
    previousCoefficient: real,
    minCoefficient: real,
    maxCoefficient: real,
    lastUpdated: Time)

  /** The inclusive bounds stored on the market admit the value. */
  predicate Admits(m: Market, v: real)
  {
    m.minCoefficient <= v <= m.maxCoefficient
  }

  /** One audit row: which market changed, from what to what, by whom and when. */
  datatype CoefficientHistory = CoefficientHistory(
    marketID: nat,
    oldValue: real,
    newValue: real,
    changedByID: nat,
    timestamp: Time)

  /** What the service returns for a committed update. */
  datatype CoefficientUpdateResponse = CoefficientUpdateResponse(
    success: bool,
    message: string,
    marketID: nat,
    oldCoefficient: real,
    newCoefficient: real,
    updatedAt: Time)
}
