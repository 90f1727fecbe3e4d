/** Machine integer types used by the driver and the MAX30003 register map (max30003.h). */
module Registers {
  /** C `uint8_t`. */
  type byte = x: int | 0 <= x < 0x100

  /** C `uint16_t`, the type of a GPIO pin mask. */
  type uint16 = x: int | 0 <= x < 0x1_0000

  /** A 4-byte register request as the callers build it: address, then three data bytes. */
  type Request = s: seq<byte> | |s| == 4 witness [0, 0, 0, 0]

  /** The 24-bit contents of one register, most significant byte first. */
  type Word = s: seq<byte> | |s| == 3 witness [0, 0, 0]

  // Register addresses as the header defines them (the interrupt labels are the header's, not the datasheet's).
  const SW_RST: byte := 0x08
  const INFO: byte := 0x0F
  const STATUS: byte := 0x01
  const FIFO_RST: byte := 0x0A
  const CNFG_GEN: byte := 0x10
  const CNFG_CAL: byte := 0x12
  const CNFG_EMUX: byte := 0x14
  const CNFG_ECG: byte := 0x15
  const ECG_FIFO: byte := 0x20
  const MNGR_INT: byte := 0x04
  const EN_INT: byte := 0x02
}
