/** Constants that several files of the repository share. */
module Constants {
  const FREQ_ONE_MHZ := 1_000_000
  const BYTES_PER_BLOCK := 16384
  const TRANSFER_BUFFER_SIZE := 262144
  const MAX_SWEEP_RANGES := 10
}
