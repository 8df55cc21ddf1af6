/** The sizes that nrghash/nrghash.h fixes for all of the proof of work. */
module NrghashConstants {
  const EPOCH_LENGTH: nat := 7200
  const HASH_BYTES: nat := 64
  const MIX_BYTES: nat := 128
}
