/** The constants of `primitives/constants`, and of the runtime, that the model uses. */
module Constants {
  /** Seconds per block, and blocks per retarget. */
  const BLOCK_TIME_SEC: nat := 60
  const DIFFICULTY_ADJUST_WINDOW: nat := 3600 / BLOCK_TIME_SEC

  /** The least time between two timestamps, in milliseconds, as the runtime configures it. */
  const MINIMUM_PERIOD: nat := 3000

  const CLAMP_FACTOR: int := 1
  const MIN_DIFFICULTY: nat := 48
  const INIT_DIFFICULTY: nat := 56
  const MAX_DIFFICULTY: nat := 224
}
