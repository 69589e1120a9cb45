/** The snapshot dictionaries the evaluators read and write, and their header. */
module SnapshotKeys {
  type Dictionary = map<string, string>

  const VERSION := "version"
  const PID := "pid"
  const START_TICKS := "start_ticks"
  const FORMAT := "1"

  function Get(snapshot: Dictionary, key: string, default: string): string {
    if key in snapshot then snapshot[key] else default
  }
}
