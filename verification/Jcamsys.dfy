/** The numbers that the modules share. */
module Jcamsys {

  const JC_MAX_CAMS: nat := 14
  const JC_MAX_SENSORS: nat := 32
  const JC_MAX_IMAGES: nat := 4

  const JC_OK := 0
  const JC_ERR := -1
  const JC_ERR_BAD_VALUE := -3
  const JC_ERR_BAD_PASS := -9
  const JC_ERR_BAD_MAGIC := -11
  const JC_ERR_KEY_NOT_VALID := -12
  const JC_ERR_READ_FAILED := -14
  const JC_ERR_TIMEOUT := -20

  // where a 16-bit counter starts again
  const WRAP: nat := 0x1_0000
}
