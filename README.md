# STM32F4 serial bootloader: command handling, modelled in Dafny

This project models the command-handling layer of a serial bootloader for an
STM32F4 microcontroller (`bootloaderFiles/bootloader.c` with its constants in
`bootloaderFiles/bl_define.h`). A host sends a frame
`[length][command id][payload][CRC, 4 bytes little-endian]`, where `length`
is the frame length minus one. Each of the four handlers computes the packet
length, checks the CRC over every byte before the CRC and then acts:

- on a mismatch it sends NACK (`0x7F`);
- on a match it sends ACK (`0xA5 0x01`) and does its work. The RDP, erase
  and write handlers then send one status byte. The jump handler sends
  `0x00` and jumps only when its address check passes; otherwise nothing
  follows the ACK.

The four commands are:

- report the read-out protection (RDP) level;
- jump to an address;
- erase flash sectors;
- write bytes to memory.

The model is driven by what the hardware is made to do. The class `Hal.Hal`
stands for the peripherals and keeps an ordered log of events:

- UART transmissions;
- flash unlock and lock;
- erase and byte-program calls, each with the status the controller answered;
- the jump.

It also holds the CRC data register and the flash lock state. Whatever the
hardware decides comes from a `Platform` value:

- the CRC peripheral's step function and its reset value;
- the flash controller's status for each call, given everything logged before it;
- the option word that holds the RDP byte;
- the address map (`FLASH_BASE`, `FLASH_END`, `SRAM1_BASE`).

Each bootloader function with an effect on the hardware is a method that
takes the `Hal`. Its postcondition says that the log grows by exactly the
events a specification function computes from the frame. Lemmas then state
what those event sequences are. The two functions without such an effect,
`bootloader_verify_address` and the shift in `get_flash_rdp_level`, are pure
functions: `Bootloader.VerifyAddress` over a `MemoryMap` and
`Bootloader.RdpLevel` over the option word.

Files:

- `bl_define.dfy`: module `BlDefine`. Integer widths, wire constants, `SRAM1_END`.
- `hal.dfy`: module `Hal`. Events, the erase-init record, the platform and the `Hal` class.
- `frame.dfy`: module `Frame`. Packet length, host CRC, little-endian fields.
- `bootloader.dfy`: module `Bootloader`. Every core function of `bootloader.c`.
- `properties.dfy`: module `BootloaderProperties`. The properties of the handlers.

Behaviour of the code a reader might not expect, kept exactly as written:

- The go-to handler decodes the full address from bytes 2..5, but checks only
  the byte `rx[2]`, zero-extended, as the address.
- `memory_write` gives every program call the same `memAddr`; bytes are not
  written at successive addresses.
- The write handler programs the frame from its first byte (the length
  byte), not from its payload.
- The erase start sector `s` is re-anchored to `min(s, 7 - s)`; the count is
  passed on unclamped, so a request can reach past sector 7.
- An erase count of 0 is accepted and passed on to the flash controller.
- Sector numbers 8..0xFE reach the end of `flash_erase` without a `return`.

## Model

| member | source | states |
|---|---|---|
| BlDefine.Sram1End | bootloaderFiles/bl_define.h:11-12 | SRAM1_END is SRAM1_BASE + 128 KiB when that sum fits in 32 bits; otherwise it wraps below SRAM1_BASE |
| Frame.PacketLen | bootloaderFiles/bootloader.c:122 | the packet length is between 1 and 256; in a well-formed frame it leaves room for the 4-byte CRC and lies within the buffer |
| Frame.Covered | bootloaderFiles/bootloader.c:124-125 | the CRC covers the first `rx[0] - 3` bytes of the frame, unchanged |
| Frame.HostCrc | bootloaderFiles/bootloader.c:124 | the host's CRC is the 32-bit word whose little-endian bytes are exactly the four bytes just before the end of the packet |
| Frame.Field32 | bootloaderFiles/bootloader.c:155 | the address field is the 32-bit word whose little-endian bytes are exactly `rx[at..at+4)` (also used at bootloader.c:216) |
| Frame.DecodeEncodeLe32 | bootloaderFiles/bootloader.c:124 | reading four bytes little-endian inverts writing a 32-bit word |
| Frame.EncodeDecodeLe32 | bootloaderFiles/bootloader.c:124 | writing a 32-bit word inverts reading four bytes little-endian |
| Frame.FrameReadsBack | bootloaderFiles/bootloader.c:122-125 | a frame built as body plus little-endian CRC is well formed, and the handlers read back exactly that body and that CRC |
| Hal.Hal.UartTransmit | bootloaderFiles/bootloader.c:60-63 | a transmission appends exactly those bytes to the log |
| Hal.Hal.CrcAccumulate | bootloaderFiles/bootloader.c:16-17 | one 32-bit word advances the CRC register by the platform's step, and the new register is returned (`VerifyCrc` zero-extends each byte into that word) |
| Hal.Hal.CrcReset | bootloaderFiles/bootloader.c:19 | the CRC register returns to its reset value |
| Hal.Hal.FlashUnlock | bootloaderFiles/bootloader.c:92 | the flash becomes unlocked and an unlock is logged |
| Hal.Hal.FlashLock | bootloaderFiles/bootloader.c:95 | the flash becomes locked and a lock is logged |
| Hal.Hal.FlashEraseEx | bootloaderFiles/bootloader.c:94 | the erase request is logged with the controller's status, which is returned |
| Hal.Hal.FlashProgram | bootloaderFiles/bootloader.c:109 | the byte-program call is logged with the controller's status, which is returned |
| Hal.Hal.JumpTo | bootloaderFiles/bootloader.c:163-166 | the jump target is logged |
| Bootloader.VerifyCrc | bootloaderFiles/bootloader.c:9-25 | returns CRC_SUCCESS exactly when the value accumulated byte by byte over `buffer[0..len)` equals `hostCrc` (0xFF when `len` is 0), else CRC_FAIL; the register is reset on both outcomes; only the CRC register changes |
| Bootloader.SendAck | bootloaderFiles/bootloader.c:27-34 | transmits exactly `[0xA5, followLen]` |
| Bootloader.SendNack | bootloaderFiles/bootloader.c:36-40 | transmits exactly `[0x7F]` |
| Bootloader.VerifyAddress | bootloaderFiles/bootloader.c:51-59 | ADDR_VALID exactly when the address lies in `[FLASH_BASE, FLASH_END]` or `[SRAM1_BASE, SRAM1_END]`, both closed; ADDR_INVALID otherwise |
| Bootloader.RdpLevel | bootloaderFiles/bootloader.c:47 | the RDP level is byte 1 of the option word's little-endian image, which is what `(uint8_t)(word >> 8)` keeps |
| Bootloader.ThumbTarget | bootloaderFiles/bootloader.c:162 | the target is the address plus one, wrapping 0xFFFFFFFF to 0; an even address gets bit 0 set and keeps its other bits |
| Bootloader.EraseDecide | bootloaderFiles/bootloader.c:64-99 | a count above 7 is rejected; sector numbers 8..0xFE reach no return; 0xFF gives a mass erase of bank 1; 0..7 give a sector erase of bank 1 starting at `min(s, 7 - s)` with the count unchanged; the voltage range is always range 3 |
| Bootloader.FlashErase | bootloaderFiles/bootloader.c:64-99 | appends exactly the events of the decision (unlock, erase, lock, or nothing) and returns INVALID_SECTOR, the controller's status, or the indeterminate value; flash is locked after an erase; the CRC register is untouched |
| Bootloader.MemoryWrite | bootloaderFiles/bootloader.c:101-114 | appends one unlock, one program call per byte of `buffer[0..len)` in order at `memAddr`, then one lock; returns the last call's status, or the indeterminate value when `len` is 0 |
| Bootloader.GetRdpCmd | bootloaderFiles/bootloader.c:116-138 | appends NACK on a mismatch, else ACK and the RDP byte; leaves the HAL idle |
| Bootloader.GoToAddrCmd | bootloaderFiles/bootloader.c:140-179 | appends NACK on a mismatch, else ACK, then ADDR_VALID and a jump to address + 1 only when `rx[2]` is a valid address; leaves the HAL idle |
| Bootloader.FlashEraseCmd | bootloaderFiles/bootloader.c:181-206 | appends NACK on a mismatch, else ACK, the erase events of `flash_erase(rx[2], rx[3])` and its status byte; leaves the HAL idle |
| Bootloader.MemWriteCmd | bootloaderFiles/bootloader.c:208-250 | appends NACK on a mismatch; otherwise ACK, then either the write of `rx[0..rx[6])` at the decoded address followed by its status, or `[0x01]` for an invalid address; leaves the HAL idle |
| BootloaderProperties.WireConstantsDistinct | bootloaderFiles/bl_define.h:14-27 | CRC outcome codes are distinct with success 0x00; ACK and NACK differ; the address and sector status bytes are 0x00, 0x01 and 0x04; the five command ids are pairwise distinct |
| BootloaderProperties.AccumulateConcat | bootloaderFiles/bootloader.c:14-19 | feeding two pieces without a reset equals feeding their concatenation, so a value depends on the register's prior contents |
| BootloaderProperties.HostFrameAcceptedIff | bootloaderFiles/bootloader.c:122-125 | a host frame passes the handlers' CRC test exactly when its trailing CRC is the peripheral's value over the body |
| BootloaderProperties.AddressBoundsInclusive | bootloaderFiles/bootloader.c:51-59 | both ends of both regions are accepted, including SRAM1_BASE + 131072 (one past the 128 KiB) when no wrap occurs |
| BootloaderProperties.RdpLevelIsOptionByte1 | bootloaderFiles/bootloader.c:42-50 | shifting the option word right by 8 and truncating yields byte 1 of the word as stored little-endian |
| BootloaderProperties.EraseCountAboveSevenTouchesNothing | bootloaderFiles/bootloader.c:70-71 | a count above 7 returns 0x04 with no unlock, erase or lock |
| BootloaderProperties.EraseBracketed | bootloaderFiles/bootloader.c:73-98 | every erase that runs is one unlock, one erase call and one lock, and the controller's status is returned unchanged; sectors 8..0xFE cause no event |
| BootloaderProperties.EraseReanchorPinned | bootloaderFiles/bootloader.c:81-87 | start sectors 4..7 become 3..0 and 0..3 stay; a request for sector 3 with count 7 reaches sector 9, and a request for sector 5 erases sector 2 |
| BootloaderProperties.ProgramEventsShape | bootloaderFiles/bootloader.c:107-110 | the loop makes one program call per value, in order, all at the same address |
| BootloaderProperties.MemoryWriteShape | bootloaderFiles/bootloader.c:101-114 | memory_write is one unlock, `len` program calls with `buffer[0..len)` at `memAddr`, then one lock, and returns the status of the last call |
| BootloaderProperties.MismatchOnlyNacks | bootloaderFiles/bootloader.c:133-137 | on a CRC mismatch each of the four handlers has exactly one effect: transmitting `[0x7F]` |
| BootloaderProperties.MatchAcksFirst | bootloaderFiles/bootloader.c:125-128 | on a CRC match each of the four handlers first transmits `[0xA5, 0x01]` |
| BootloaderProperties.RdpCmdReply | bootloaderFiles/bootloader.c:128-131 | after the ACK the RDP handler sends exactly one byte, the option word shifted right by 8 and truncated |
| BootloaderProperties.GoToChecksByte2Only | bootloaderFiles/bootloader.c:153-171 | after the ACK the jump handler sends `[0x00]` and jumps to the little-endian address from bytes 2..5 plus one exactly when `rx[2]` is a valid address; otherwise nothing follows |
| BootloaderProperties.GoToNeverJumpsAboveByteRange | bootloaderFiles/bootloader.c:158 | when both regions start above 0xFF, the jump handler never jumps |
| BootloaderProperties.EraseCmdWholeTrace | bootloaderFiles/bootloader.c:190-198 | after a match, for sector 0..7 or 0xFF and a count of at most 7 the erase handler's whole trace is ACK, unlock, one erase, lock, then the controller's reply as the status byte; for a count above 7 it is ACK then `[0x04]` with no flash event |
| BootloaderProperties.MemWriteInvalidAddress | bootloaderFiles/bootloader.c:238-243 | with an invalid address the write handler sends ACK then `[0x01]` and touches no flash |
| BootloaderProperties.MemWriteProgramsFrameStart | bootloaderFiles/bootloader.c:214-236 | with a valid address the write handler sends ACK, unlocks, programs `rx[0..rx[6])` (the frame from its length byte) all at the decoded address, locks, and sends memory_write's status |

## Left out

- HAL primitives (`HAL_UART_Transmit`, `HAL_CRC_Accumulate`, `__HAL_CRC_DR_RESET`, `HAL_FLASH_Unlock`/`Lock`, `HAL_FLASHEx_Erase`, `HAL_FLASH_Program`): foreign hardware calls, modelled only as logged events whose answers come from the platform.
- The CRC algorithm: computed by the CRC peripheral; its step function and reset value are uninterpreted platform parameters.
- `get_flash_rdp_level`'s volatile read at 0x1FFFC000: the option word is a platform input, and `Bootloader.RdpLevel` applies the shift and truncation to it.
- The jump through a function pointer: the code jumps with an ordinary call through `void (*)(void)`, and whether that call comes back depends on the code at the target. Nothing follows the call in the handler either way, so the model logs a `Jump(target)` event and returns; that gives the same trace.
- The CRC register on entry to a handler: every handler requires the HAL to be idle, so the CRC verdict assumes the register holds its reset value. The handlers keep this true themselves, because `bl_verify_crc` resets the register after every use. The assumption also relies on no code outside this core touching the CRC peripheral between commands; the model does not capture such code.
- `printMessage` debug output: it has no protocol effect.
- `bootloaderFiles/bootloader.h`: it holds only externs and prototypes.
- The receive loop and the dispatch by command id are not part of this model; the constants name the ids, and `BL_EN_RW_PROTECT` has no handler.
- `FLASH_BASE`, `FLASH_END`, `SRAM1_BASE`: defined in the device header, which is not part of this model; they are fields of `Hal.MemoryMap`, and the address lemmas assume `FLASH_BASE <= FLASH_END` where they need it.
- Undefined behaviour of the code, stated as preconditions. Each precondition covers only the paths on which the code reads the bytes:
  - every handler: a length byte below 3 (the CRC length would wrap) or a buffer shorter than the packet length;
  - the write handler: a buffer shorter than 7 bytes, because it reads bytes 2..6 before the CRC check;
  - the go-to handler, after a CRC match only: a buffer shorter than 6 bytes (it reads bytes 2..5 there);
  - the write handler, after a CRC match with a valid address only: a buffer shorter than `rx[6]` bytes.
  A mismatch on a short buffer, and an invalid write address, stay inside the model with their NACK or `[0x01]` reply. The receive buffer's real size is set outside the core.
- Undefined behaviour of the code, stated as an explicit unspecified value: the uninitialised `status` of `memory_write` when `len` is 0, and the missing `return` of `flash_erase` for sector numbers 8..0xFE. Both handlers take an `indeterminate` byte that stands for that value.
- Unaligned 32-bit loads of the CRC and the address are modelled as little-endian decoding, as on a Cortex-M4.
