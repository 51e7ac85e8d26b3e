/**
 * The fixed parameters of the codec in main.c (its preprocessor constants and the
 * precomputed generator polynomial).
 */
module Config {
  import opened GF

  /** N_SYMBOLS: parity symbols per codeword; up to N_SYMBOLS / 2 errors are located. */
  const NSymbols: nat := 4

  /** DATA_SIZE: message symbols per codeword. */
  const DataSize: nat := 28

  /** DATA_SIZE + N_SYMBOLS: symbols per codeword. */
  const CodeSize: nat := 32

  /** ERR_CODE: the error marker returned in sizes and status bytes. */
  const ErrCode: U8 := 0xFF

  /** poly_generator: (x + 1)(x + 2)(x + 4)(x + 8), most significant coefficient first. */
  const Generator: seq<bv8> := [0x01, 0x0F, 0x36, 0x78, 0x40]
}
