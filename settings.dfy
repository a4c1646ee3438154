/** The fixed parameters of the acquisition pipeline. */
module Settings {

  /** Assumed ECG sampling rate in Hz (`SAMPLING_RATE`). */
  const SAMPLING_RATE: nat := 100

  /** The display shows the most recent ten seconds. */
  const WINDOW_SECONDS: nat := 10

  /** Samples in the display window (`SAMPLING_RATE * 10`). */
  const WINDOW_SIZE: nat := SAMPLING_RATE * WINDOW_SECONDS

  /** Relative time in seconds of the sample with the given sequence number
      (`sample_counter / SAMPLING_RATE`). */
  function RelativeTime(index: nat): (t: real)
    ensures t >= 0.0
    ensures t * SAMPLING_RATE as real == index as real
  {
    index as real / SAMPLING_RATE as real
  }
}
