/**
 * Sizes and enumerations shared by every part of the commitment scheme
 * (src/util/global-constants.h). The header holds only `#define`s, one enum
 * and a constant seed table, so this module holds only constants and one
 * lemma collecting the relations between them that the rest of the code
 * relies on.
 */
module GlobalConstants {

  /** CHAR_BIT of the platform: bits per byte. */
  const CHAR_BIT: nat := 8

  /** Computational security parameter, in bits and in bytes. */
  const CSEC: nat := 128
  const CSEC_BYTES: nat := 16

  /** Statistical security parameter, in bits and in bytes. */
  const SSEC: nat := 40
  const SSEC_BYTES: nat := 5

  /** Sizes the fixed-length XOR helpers of util.h are written for. */
  const BCH_BITS: nat := 136
  const BCH_BYTES: nat := 17
  const CODEWORD_BITS: nat := 264
  const CODEWORD_BYTES: nat := 33
  const BIT_CODEWORD_BITS: nat := SSEC
  const BIT_CODEWORD_BYTES: nat := SSEC_BYTES

  /**
   * LIN_CHECK_TYPE: how many bytes (linear combinations) of each row a
   * random-linear-combination proof keeps.
   */
  datatype LinCheckType = Consistency | BatchDecommit

  /** The enumerator values of LIN_CHECK_TYPE. */
  const CONSISTENCY: nat := 2 * SSEC_BYTES
  const BATCH_DECOMMIT: nat := SSEC_BYTES

  function NumChecks(t: LinCheckType): (n: nat)
    ensures n == CONSISTENCY || n == BATCH_DECOMMIT
    ensures t == Consistency <==> n == 2 * SSEC_BYTES
  {
    match t
    case Consistency => CONSISTENCY
    case BatchDecommit => BATCH_DECOMMIT
  }

  /** Number of columns the consistency check processes at a time. */
  const NUM_PAR_CHECKS: nat := 128
  /** BITS_TO_BYTES(NUM_PAR_CHECKS), with the macro of util.h expanded. */
  const NUM_PAR_CHECKS_BYTES: nat := (NUM_PAR_CHECKS + CHAR_BIT - 1) / CHAR_BIT

  /** The two fixed 16-byte seeds the tests and drivers start their PRNGs from. */
  const CONSTANT_SEEDS: seq<seq<bv8>> := [
    [0x43, 0x73, 0x98, 0x41, 0x70, 0x12, 0x38, 0x78, 0xAB, 0x45, 0x78, 0xFF, 0xEA, 0xD3, 0xFF, 0x00],
    [0x43, 0x73, 0x98, 0x41, 0x70, 0x12, 0x38, 0x78, 0x43, 0x73, 0x98, 0x41, 0x66, 0x19, 0xAA, 0xFE]
  ]

  /**
   * The relations between the constants that the code silently depends on:
   * every bit count is eight times its byte count, a 128-bit codeword is a
   * 16-byte message followed by 17 check-bit bytes (so the length
   * CODEWORD_BYTES - CSEC_BYTES of XOR_CheckBits is BCH_BYTES), the two check
   * lengths both fit in one 128-column block, and CONSISTENCY keeps twice as
   * many combinations as BATCH_DECOMMIT.
   */
  lemma ConstantRelations()
    ensures CSEC == CHAR_BIT * CSEC_BYTES && SSEC == CHAR_BIT * SSEC_BYTES
    ensures BCH_BITS == CHAR_BIT * BCH_BYTES && CODEWORD_BITS == CHAR_BIT * CODEWORD_BYTES
    ensures BIT_CODEWORD_BITS == CHAR_BIT * BIT_CODEWORD_BYTES
    ensures CODEWORD_BYTES == CSEC_BYTES + BCH_BYTES
    ensures CODEWORD_BYTES - CSEC_BYTES == BCH_BYTES
    ensures CONSISTENCY == 2 * BATCH_DECOMMIT && BATCH_DECOMMIT == SSEC_BYTES
    ensures NUM_PAR_CHECKS == CSEC && NUM_PAR_CHECKS_BYTES == CSEC_BYTES
    ensures CHAR_BIT * CONSISTENCY <= NUM_PAR_CHECKS && CHAR_BIT * BATCH_DECOMMIT <= NUM_PAR_CHECKS
    ensures |CONSTANT_SEEDS| == 2 && |CONSTANT_SEEDS[0]| == CSEC_BYTES && |CONSTANT_SEEDS[1]| == CSEC_BYTES
  {
  }
}
