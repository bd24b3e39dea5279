/**
 * The bootloader's wire constants and the C integer widths it works in.
 * FLASH_BASE, FLASH_END and SRAM1_BASE belong to the device header, not to
 * this file; they reach the model through Hal.MemoryMap.
 */
module BlDefine {

  /** C `uint8_t`. */
  type uint8 = x: int | 0 <= x < 0x100

  /** C `uint32_t`. */
  type uint32 = x: int | 0 <= x < 0x1_0000_0000

  const UINT32_MODULUS: nat := 0x1_0000_0000

  /** SRAM1_SIZE: 128 KiB. */
  const SRAM1_SIZE: nat := 128 * 1024

  /** Outcome codes of the CRC check. */
  const CRC_FAIL: uint8 := 0x01
  const CRC_SUCCESS: uint8 := 0x00

  /** Handshake markers. */
  const BL_ACK_VALUE: uint8 := 0xA5
  const BL_NACK_VALUE: uint8 := 0x7F

  /** Status bytes sent on the wire. */
  const ADDR_VALID: uint8 := 0x00
  const ADDR_INVALID: uint8 := 0x01
  const INVALID_SECTOR: uint8 := 0x04

  /** Command identifiers (byte 1 of a frame). */
  const BL_GET_RDP_STATUS: uint8 := 0x11
  const BL_GO_TO_ADDR: uint8 := 0x22
  const BL_FLASH_ERASE: uint8 := 0x33
  const BL_MEM_WRITE: uint8 := 0x44
  const BL_EN_RW_PROTECT: uint8 := 0x55

  /**
   * SRAM1_END = SRAM1_BASE + SRAM1_SIZE, evaluated in 32-bit unsigned
   * arithmetic (SRAM1_BASE is an unsigned 32-bit constant).
   */
  function Sram1End(sram1Base: uint32): (r: uint32)
    ensures sram1Base + SRAM1_SIZE < UINT32_MODULUS ==> r - sram1Base == SRAM1_SIZE
    ensures sram1Base + SRAM1_SIZE >= UINT32_MODULUS ==> r < sram1Base
  {
    (sram1Base + SRAM1_SIZE) % UINT32_MODULUS
  }
}
