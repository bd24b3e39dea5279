/**
 * The command-handling layer of the bootloader: CRC check of a frame,
 * ACK/NACK replies, the address check, erase and byte-programming helpers,
 * and the four command handlers. Each method is specified by the sequence
 * of events it appends to the HAL's log, given by a function of its inputs.
 */
module Bootloader {
  import opened BlDefine
  import opened Hal
  import opened Frame

  // ---------------------------------------------------------------------
  // Frame checking
  // ---------------------------------------------------------------------

  /** The CRC register after feeding `bytes`, one zero-extended word each, from `start`. */
  function Accumulate(step: (uint32, uint32) -> uint32, start: uint32, bytes: seq<uint8>): uint32
  {
    if bytes == [] then start
    else step(Accumulate(step, start, bytes[.. |bytes| - 1]), bytes[|bytes| - 1])
  }

  /**
   * The value bl_verify_crc compares with the host's CRC: the last value the
   * accumulator returned, or the initial 0xFF of `crcValue` when no byte is fed.
   */
  function CrcValue(step: (uint32, uint32) -> uint32, start: uint32, bytes: seq<uint8>): uint32
  {
    if bytes == [] then 0xFF else Accumulate(step, start, bytes)
  }

  function CrcVerdict(step: (uint32, uint32) -> uint32, start: uint32, bytes: seq<uint8>, hostCrc: uint32): uint8
  {
    if CrcValue(step, start, bytes) == hostCrc then CRC_SUCCESS else CRC_FAIL
  }

  /** The handlers' `!bl_verify_crc(...)` test on an idle HAL. */
  predicate CrcPasses(p: Platform, rx: seq<uint8>)
    requires WellFramed(rx)
  {
    CrcVerdict(p.crcStep, p.crcInit, Covered(rx), HostCrc(rx)) == CRC_SUCCESS
  }

  /** bl_verify_crc. */
  method VerifyCrc(hal: Hal, buffer: seq<uint8>, len: uint32, hostCrc: uint32) returns (r: uint8)
    requires len <= |buffer|
    modifies hal`crcReg
    ensures r == CRC_SUCCESS <==> CrcValue(hal.platform.crcStep, old(hal.crcReg), buffer[.. len]) == hostCrc
    ensures r == CRC_SUCCESS || r == CRC_FAIL
    ensures hal.crcReg == hal.platform.crcInit
  {
    var crcValue: uint32 := 0xFF;
    var i: uint32 := 0;
    while i < len
      invariant i <= len
      invariant hal.crcReg == Accumulate(hal.platform.crcStep, old(hal.crcReg), buffer[.. i])
      invariant crcValue == CrcValue(hal.platform.crcStep, old(hal.crcReg), buffer[.. i])
    {
      var data: uint32 := buffer[i];
      assert buffer[.. i + 1][.. i] == buffer[.. i];
      crcValue := hal.CrcAccumulate(data);
      i := i + 1;
    }
    hal.CrcReset();
    if crcValue == hostCrc {
      r := CRC_SUCCESS;
    } else {
      r := CRC_FAIL;
    }
  }

  // ---------------------------------------------------------------------
  // Replies
  // ---------------------------------------------------------------------

  /** The bytes bl_send_ack transmits. */
  function AckReply(followLen: uint8): seq<uint8>
  {
    [BL_ACK_VALUE, followLen]
  }

  /** The bytes bl_send_nack transmits. */
  const NACK_REPLY: seq<uint8> := [BL_NACK_VALUE]

  /** bl_send_ack. */
  method SendAck(hal: Hal, followLen: uint8)
    modifies hal`log
    ensures hal.log == old(hal.log) + [Transmit(AckReply(followLen))]
  {
    hal.UartTransmit(AckReply(followLen));
  }

  /** bl_send_nack. */
  method SendNack(hal: Hal)
    modifies hal`log
    ensures hal.log == old(hal.log) + [Transmit(NACK_REPLY)]
  {
    hal.UartTransmit(NACK_REPLY);
  }

  // ---------------------------------------------------------------------
  // Address check and RDP level
  // ---------------------------------------------------------------------

  /** bootloader_verify_address. */
  function VerifyAddress(m: MemoryMap, goAddress: uint32): (r: uint8)
    ensures r == ADDR_VALID || r == ADDR_INVALID
    ensures r == ADDR_VALID <==>
      (m.flashBase <= goAddress <= m.flashEnd) || (m.sram1Base <= goAddress <= Sram1End(m.sram1Base))
  {
    if m.flashBase <= goAddress && goAddress <= m.flashEnd then ADDR_VALID
    else if m.sram1Base <= goAddress && goAddress <= Sram1End(m.sram1Base) then ADDR_VALID
    else ADDR_INVALID
  }

  /** get_flash_rdp_level applied to the option word: shifted right by 8, truncated to a byte. */
  function RdpLevel(optionWord: uint32): (r: uint8)
    ensures r == EncodeLe32(optionWord)[1]
  {
    optionWord / 0x100 % 0x100
  }

  // ---------------------------------------------------------------------
  // Erase translation
  // ---------------------------------------------------------------------

  /** What flash_erase does with a sector number and a sector count. */
  datatype EraseDecision =
    | RejectCount          // returns INVALID_SECTOR, touches nothing
    | NoReturn             // reaches the end of the function without a return
    | Issue(init: EraseInit)

  function Min(a: int, b: int): int
  {
    if a <= b then a else b
  }

  function EraseDecide(sectorNum: uint8, numberOfSector: uint8): (d: EraseDecision)
    ensures d.RejectCount? <==> numberOfSector > 7
    ensures d.NoReturn? <==> numberOfSector <= 7 && 7 < sectorNum < 0xFF
    ensures d.Issue? && sectorNum == 0xFF ==>
      d.init.typeErase == MassErase && d.init.banks == Bank1
    ensures d.Issue? && sectorNum <= 7 ==>
      d.init.typeErase == Sectors && d.init.banks == Bank1 &&
      d.init.sector == Min(sectorNum, 7 - sectorNum) && d.init.nbSectors == numberOfSector
    ensures d.Issue? ==> d.init.voltageRange == Range3
  {
    if numberOfSector > 7 then RejectCount
    else if sectorNum == 0xFF then Issue(EraseInit(MassErase, Bank1, 0, 0, Range3))
    else if sectorNum <= 7 then
      var remaining := 7 - sectorNum;
      var start := if sectorNum > remaining then remaining else sectorNum;
      Issue(EraseInit(Sectors, Bank1, start, numberOfSector, Range3))
    else NoReturn
  }

  /** The events flash_erase appends after `log0`. */
  function EraseEvents(p: Platform, log0: seq<Event>, sectorNum: uint8, numberOfSector: uint8): seq<Event>
  {
    match EraseDecide(sectorNum, numberOfSector)
    case Issue(init) => [Unlock, Flash(Erase(init), p.flashReply(log0 + [Unlock], Erase(init))), Lock]
    case _ => []
  }

  /** What flash_erase returns; `indeterminate` stands for the value of a missing return. */
  function EraseStatus(p: Platform, log0: seq<Event>, sectorNum: uint8, numberOfSector: uint8, indeterminate: uint8): uint8
  {
    match EraseDecide(sectorNum, numberOfSector)
    case RejectCount => INVALID_SECTOR
    case NoReturn => indeterminate
    case Issue(init) => p.flashReply(log0 + [Unlock], Erase(init))
  }

  /** flash_erase. */
  method FlashErase(hal: Hal, sectorNum: uint8, numberOfSector: uint8, indeterminate: uint8) returns (status: uint8)
    modifies hal`log, hal`flashUnlocked
    ensures hal.log == old(hal.log) + EraseEvents(hal.platform, old(hal.log), sectorNum, numberOfSector)
    ensures status == EraseStatus(hal.platform, old(hal.log), sectorNum, numberOfSector, indeterminate)
    ensures EraseDecide(sectorNum, numberOfSector).Issue? ==> !hal.flashUnlocked
    ensures !EraseDecide(sectorNum, numberOfSector).Issue? ==> hal.flashUnlocked == old(hal.flashUnlocked)
  {
    if numberOfSector > 7 {
      return INVALID_SECTOR;
    }
    var sector := sectorNum;
    if sector <= 7 || sector == 0xFF {
      var init: EraseInit;
      if sector == 0xFF {
        init := EraseInit(MassErase, Bank1, 0, 0, Range3);
      } else {
        var remaining: uint8 := 7 - sector;
        if sector > remaining {
          sector := remaining;
        }
        init := EraseInit(Sectors, Bank1, sector, numberOfSector, Range3);
      }
      hal.FlashUnlock();
      status := hal.FlashEraseEx(init);
      hal.FlashLock();
      return status;
    }
    status := indeterminate;
  }

  // ---------------------------------------------------------------------
  // Byte programming
  // ---------------------------------------------------------------------

  /** The program calls for `values`, each at `address`, each answered given all that came before. */
  function ProgramEvents(p: Platform, log0: seq<Event>, address: uint32, values: seq<uint8>): seq<Event>
  {
    if values == [] then []
    else
      var before := ProgramEvents(p, log0, address, values[.. |values| - 1]);
      var call := ProgramByte(address, values[|values| - 1]);
      before + [Flash(call, p.flashReply(log0 + before, call))]
  }

  /** The events memory_write appends after `log0`. */
  function MemoryWriteEvents(p: Platform, log0: seq<Event>, address: uint32, values: seq<uint8>): seq<Event>
  {
    [Unlock] + ProgramEvents(p, log0 + [Unlock], address, values) + [Lock]
  }

  /**
   * What memory_write returns: the status of the last program call, or the
   * uninitialised `status` (here `indeterminate`) when nothing is programmed.
   */
  function MemoryWriteStatus(p: Platform, log0: seq<Event>, address: uint32, values: seq<uint8>, indeterminate: uint8): uint8
  {
    if values == [] then indeterminate
    else
      var start := log0 + [Unlock];
      var call := ProgramByte(address, values[|values| - 1]);
      p.flashReply(start + ProgramEvents(p, start, address, values[.. |values| - 1]), call)
  }

  /** memory_write. */
  method MemoryWrite(hal: Hal, buffer: seq<uint8>, memAddr: uint32, len: uint32, indeterminate: uint8) returns (status: uint8)
    requires len <= |buffer|
    modifies hal`log, hal`flashUnlocked
    ensures hal.log == old(hal.log) + MemoryWriteEvents(hal.platform, old(hal.log), memAddr, buffer[.. len])
    ensures status == MemoryWriteStatus(hal.platform, old(hal.log), memAddr, buffer[.. len], indeterminate)
    ensures !hal.flashUnlocked
  {
    status := indeterminate;
    hal.FlashUnlock();
    ghost var start := hal.log;
    var i: uint32 := 0;
    while i < len
      invariant i <= len
      invariant hal.log == start + ProgramEvents(hal.platform, start, memAddr, buffer[.. i])
      invariant status == MemoryWriteStatus(hal.platform, old(hal.log), memAddr, buffer[.. i], indeterminate)
    {
      assert buffer[.. i + 1][.. i] == buffer[.. i];
      status := hal.FlashProgram(memAddr, buffer[i]);
      i := i + 1;
    }
    hal.FlashLock();
  }

  // ---------------------------------------------------------------------
  // Command handlers
  // ---------------------------------------------------------------------

  /** The events bl_get_rdp_cmd appends. */
  function RdpCmdTrace(p: Platform, rx: seq<uint8>): seq<Event>
    requires WellFramed(rx)
  {
    if CrcPasses(p, rx) then [Transmit(AckReply(1)), Transmit([RdpLevel(p.optionWord)])] else [Transmit(NACK_REPLY)]
  }

  /** bl_get_rdp_cmd. */
  method GetRdpCmd(hal: Hal, rx: seq<uint8>)
    requires hal.Idle() && WellFramed(rx)
    modifies hal
    ensures hal.Idle()
    ensures hal.log == old(hal.log) + RdpCmdTrace(hal.platform, rx)
  {
    var packetLen: uint32 := rx[0] as int + 1;
    var hostCrc := DecodeLe32(rx[packetLen - 4 .. packetLen]);
    var verdict := VerifyCrc(hal, rx, packetLen - 4, hostCrc);
    if verdict == CRC_SUCCESS {
      SendAck(hal, 1);
      var rdpLevel := RdpLevel(hal.platform.optionWord);
      hal.UartTransmit([rdpLevel]);
    } else {
      SendNack(hal);
    }
  }

  /**
   * The jump target plus one, in 32-bit arithmetic; this sets the Thumb bit
   * of an even address.
   */
  function ThumbTarget(address: uint32): (r: uint32)
    ensures address < UINT32_MODULUS - 1 ==> r == address + 1
    ensures address == UINT32_MODULUS - 1 ==> r == 0
    ensures address % 2 == 0 ==> r % 2 == 1 && r / 2 == address / 2
  {
    (address + 1) % UINT32_MODULUS
  }

  /** The events bl_go_to_addr_cmd appends. */
  function GoToAddrCmdTrace(p: Platform, rx: seq<uint8>): seq<Event>
    requires WellFramed(rx) && (CrcPasses(p, rx) ==> |rx| >= 6)
  {
    if !CrcPasses(p, rx) then [Transmit(NACK_REPLY)]
    else if VerifyAddress(p.memory, rx[2]) == ADDR_VALID then
      [Transmit(AckReply(1)), Transmit([ADDR_VALID]), Jump(ThumbTarget(Field32(rx, 2)))]
    else [Transmit(AckReply(1))]
  }

  /** bl_go_to_addr_cmd. */
  method GoToAddrCmd(hal: Hal, rx: seq<uint8>)
    requires hal.Idle() && WellFramed(rx) && (CrcPasses(hal.platform, rx) ==> |rx| >= 6)
    modifies hal
    ensures hal.Idle()
    ensures hal.log == old(hal.log) + GoToAddrCmdTrace(hal.platform, rx)
  {
    var packetLen: uint32 := rx[0] as int + 1;
    var hostCrc := DecodeLe32(rx[packetLen - 4 .. packetLen]);
    var verdict := VerifyCrc(hal, rx, packetLen - 4, hostCrc);
    if verdict == CRC_SUCCESS {
      SendAck(hal, 1);
      var address := DecodeLe32(rx[2 .. 6]);
      if VerifyAddress(hal.platform.memory, rx[2]) == ADDR_VALID {
        hal.UartTransmit([ADDR_VALID]);
        address := ThumbTarget(address);
        hal.JumpTo(address);
      }
    } else {
      SendNack(hal);
    }
  }

  /** The events bl_flash_erase_cmd appends after `log0`. */
  function FlashEraseCmdTrace(p: Platform, log0: seq<Event>, rx: seq<uint8>, indeterminate: uint8): seq<Event>
    requires WellFramed(rx)
  {
    if !CrcPasses(p, rx) then [Transmit(NACK_REPLY)]
    else
      var acked := log0 + [Transmit(AckReply(1))];
      [Transmit(AckReply(1))] + EraseEvents(p, acked, rx[2], rx[3])
        + [Transmit([EraseStatus(p, acked, rx[2], rx[3], indeterminate)])]
  }

  /** bl_flash_erase_cmd. */
  method FlashEraseCmd(hal: Hal, rx: seq<uint8>, indeterminate: uint8)
    requires hal.Idle() && WellFramed(rx)
    modifies hal
    ensures hal.Idle()
    ensures hal.log == old(hal.log) + FlashEraseCmdTrace(hal.platform, old(hal.log), rx, indeterminate)
  {
    var packetLen: uint32 := rx[0] as int + 1;
    var hostCrc := DecodeLe32(rx[packetLen - 4 .. packetLen]);
    var verdict := VerifyCrc(hal, rx, packetLen - 4, hostCrc);
    if verdict == CRC_SUCCESS {
      SendAck(hal, 1);
      var eraseStat := FlashErase(hal, rx[2], rx[3], indeterminate);
      hal.UartTransmit([eraseStat]);
    } else {
      SendNack(hal);
    }
  }

  /** The events bl_mem_write_cmd appends after `log0`. */
  function MemWriteCmdTrace(p: Platform, log0: seq<Event>, rx: seq<uint8>, indeterminate: uint8): seq<Event>
    requires WellFramed(rx) && |rx| >= 7
    requires CrcPasses(p, rx) && VerifyAddress(p.memory, Field32(rx, 2)) == ADDR_VALID ==> rx[6] <= |rx|
  {
    if !CrcPasses(p, rx) then [Transmit(NACK_REPLY)]
    else
      var memAddr := Field32(rx, 2);
      var acked := log0 + [Transmit(AckReply(1))];
      if VerifyAddress(p.memory, memAddr) == ADDR_VALID then
        [Transmit(AckReply(1))] + MemoryWriteEvents(p, acked, memAddr, rx[.. rx[6]])
          + [Transmit([MemoryWriteStatus(p, acked, memAddr, rx[.. rx[6]], indeterminate)])]
      else [Transmit(AckReply(1)), Transmit([ADDR_INVALID])]
  }

  /** bl_mem_write_cmd. */
  method MemWriteCmd(hal: Hal, rx: seq<uint8>, indeterminate: uint8)
    requires hal.Idle() && WellFramed(rx) && |rx| >= 7
    requires CrcPasses(hal.platform, rx) && VerifyAddress(hal.platform.memory, Field32(rx, 2)) == ADDR_VALID ==> rx[6] <= |rx|
    modifies hal
    ensures hal.Idle()
    ensures hal.log == old(hal.log) + MemWriteCmdTrace(hal.platform, old(hal.log), rx, indeterminate)
  {
    var payLoadLen := rx[6];
    var memAddr := DecodeLe32(rx[2 .. 6]);
    var packetLen: uint32 := rx[0] as int + 1;
    var hostCrc := DecodeLe32(rx[packetLen - 4 .. packetLen]);
    var verdict := VerifyCrc(hal, rx, packetLen - 4, hostCrc);
    if verdict == CRC_SUCCESS {
      SendAck(hal, 1);
      var writeStatus: uint8;
      if VerifyAddress(hal.platform.memory, memAddr) == ADDR_VALID {
        writeStatus := MemoryWrite(hal, rx, memAddr, payLoadLen, indeterminate);
      } else {
        writeStatus := ADDR_INVALID;
      }
      hal.UartTransmit([writeStatus]);
    } else {
      SendNack(hal);
    }
  }
}
