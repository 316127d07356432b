/** Sizes and limits of P2MR spends. */
module Limits {
  const SLH_DSA_PUBLIC_KEY_SIZE: nat := 32
  const ML_DSA_44_PUBLIC_KEY_SIZE: nat := 1312

  const SCHNORR_SIGNATURE_SIZE: nat := 64
  const ML_DSA_44_SIGNATURE_SIZE: nat := 2420
  const SLH_DSA_128S_SIGNATURE_SIZE: nat := 7856
  const PQC_SIGNATURE_SIZE_TOLERANCE: nat := 4

  const MAX_P2MR_WITNESS_STACK: nat := 100
  const MAX_P2MR_LEAF_SCRIPT_SIZE: nat := 10_000
  const MAX_PQC_SIG_WU_PER_INPUT: nat := 12_288
}
