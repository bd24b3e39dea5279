/**
 * The hardware abstraction layer the bootloader talks to: the UART, the CRC
 * peripheral, the flash controller and the jump into loaded code. Nothing
 * here models the real peripherals; every primitive appends what it did to
 * an ordered log of events, and the answers the hardware gives (CRC steps,
 * flash statuses, the option word) come from a Platform value.
 */
module Hal {
  import opened BlDefine

  /** FLASH_TYPEERASE_MASSERASE or FLASH_TYPEERASE_SECTORS. */
  datatype EraseType = MassErase | Sectors

  /** FLASH_BANK_1 or FLASH_BANK_2. */
  datatype Bank = Bank1 | Bank2

  /** FLASH_VOLTAGE_RANGE_1 .. FLASH_VOLTAGE_RANGE_4. */
  datatype VoltageRange = Range1 | Range2 | Range3 | Range4

  /** The FLASH_EraseInitTypeDef record handed to the erase primitive. */
  datatype EraseInit = EraseInit(
    typeErase: EraseType,
    banks: Bank,
    sector: uint8,
    nbSectors: uint8,
    voltageRange: VoltageRange)

  /** A call into the flash controller that answers with a status. */
  datatype FlashCall =
    | Erase(init: EraseInit)
    | ProgramByte(address: uint32, data: uint8)

  /** What the bootloader makes the hardware do, in order. */
  datatype Event =
    | Transmit(bytes: seq<uint8>)
    | Unlock
    | Lock
    | Flash(call: FlashCall, status: uint8)
    | Jump(target: uint32)

  /** The device's address map: FLASH_BASE, FLASH_END and SRAM1_BASE. */
  datatype MemoryMap = MemoryMap(flashBase: uint32, flashEnd: uint32, sram1Base: uint32)

  /**
   * Everything the hardware decides: the CRC peripheral's step function and
   * reset value, the flash controller's status for each call given all that
   * happened before it, and the option word read by the RDP query.
   */
  datatype Platform = Platform(
    crcStep: (uint32, uint32) -> uint32,
    crcInit: uint32,
    flashReply: (seq<Event>, FlashCall) -> uint8,
    optionWord: uint32,
    memory: MemoryMap)

  class Hal {
    const platform: Platform
    /** Every effect so far, oldest first. */
    var log: seq<Event>
    /** The CRC peripheral's data register. */
    var crcReg: uint32
    /** The flash controller's lock state. */
    var flashUnlocked: bool

    /** The state between two commands: CRC register reset and flash locked. */
    predicate Idle()
      reads this
    {
      crcReg == platform.crcInit && !flashUnlocked
    }

    constructor (platform: Platform)
      ensures this.platform == platform && log == [] && Idle()
    {
      this.platform := platform;
      log := [];
      crcReg := platform.crcInit;
      flashUnlocked := false;
    }

    /** HAL_UART_Transmit. */
    method UartTransmit(bytes: seq<uint8>)
      modifies this`log
      ensures log == old(log) + [Transmit(bytes)]
    {
      log := log + [Transmit(bytes)];
    }

    /** HAL_CRC_Accumulate of one 32-bit word: feeds the register and returns it. */
    method CrcAccumulate(data: uint32) returns (crc: uint32)
      modifies this`crcReg
      ensures crcReg == platform.crcStep(old(crcReg), data) && crc == crcReg
    {
      crcReg := platform.crcStep(crcReg, data);
      crc := crcReg;
    }

    /** __HAL_CRC_DR_RESET. */
    method CrcReset()
      modifies this`crcReg
      ensures crcReg == platform.crcInit
    {
      crcReg := platform.crcInit;
    }

    /** HAL_FLASH_Unlock. */
    method FlashUnlock()
      modifies this`log, this`flashUnlocked
      ensures flashUnlocked && log == old(log) + [Unlock]
    {
      flashUnlocked := true;
      log := log + [Unlock];
    }

    /** HAL_FLASH_Lock. */
    method FlashLock()
      modifies this`log, this`flashUnlocked
      ensures !flashUnlocked && log == old(log) + [Lock]
    {
      flashUnlocked := false;
      log := log + [Lock];
    }

    /** HAL_FLASHEx_Erase, its status already narrowed to one byte. */
    method FlashEraseEx(init: EraseInit) returns (status: uint8)
      modifies this`log
      ensures status == platform.flashReply(old(log), Erase(init))
      ensures log == old(log) + [Flash(Erase(init), status)]
    {
      status := platform.flashReply(log, Erase(init));
      log := log + [Flash(Erase(init), status)];
    }

    /** HAL_FLASH_Program with FLASH_TYPEPROGRAM_BYTE. */
    method FlashProgram(address: uint32, data: uint8) returns (status: uint8)
      modifies this`log
      ensures status == platform.flashReply(old(log), ProgramByte(address, data))
      ensures log == old(log) + [Flash(ProgramByte(address, data), status)]
    {
      status := platform.flashReply(log, ProgramByte(address, data));
      log := log + [Flash(ProgramByte(address, data), status)];
    }

    /** The call through a function pointer; nothing follows it in the handler. */
    method JumpTo(target: uint32)
      modifies this`log
      ensures log == old(log) + [Jump(target)]
    {
      log := log + [Jump(target)];
    }
  }
}
