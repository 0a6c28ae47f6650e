/** Units of time: instants and durations are in nanoseconds, timestamps in whole seconds. */
module Time {

  /** The nanoseconds of a second. */
  const NANOS := 1_000_000_000
}
