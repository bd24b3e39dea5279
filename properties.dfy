/**
 * Properties of the bootloader model: what a host sees on the wire and what
 * the flash controller is asked to do, for every frame.
 */
module BootloaderProperties {
  import opened BlDefine
  import opened Hal
  import opened Frame
  import opened Bootloader

  // ---------------------------------------------------------------------
  // Constants
  // ---------------------------------------------------------------------

  /** The codes the handlers compare and send are told apart on the wire. */
  lemma WireConstantsDistinct()
    ensures CRC_SUCCESS == 0x00 && CRC_SUCCESS != CRC_FAIL
    ensures BL_ACK_VALUE != BL_NACK_VALUE
    ensures ADDR_VALID == 0x00 && ADDR_INVALID == 0x01 && INVALID_SECTOR == 0x04
    ensures |{BL_GET_RDP_STATUS, BL_GO_TO_ADDR, BL_FLASH_ERASE, BL_MEM_WRITE, BL_EN_RW_PROTECT}| == 5
  {
  }

  // ---------------------------------------------------------------------
  // Frame checking
  // ---------------------------------------------------------------------

  /**
   * Feeding two pieces without a reset in between is feeding their
   * concatenation: the value depends on whatever the register held before,
   * which is why bl_verify_crc resets it after every use.
   */
  lemma {:induction false} AccumulateConcat(step: (uint32, uint32) -> uint32, start: uint32, a: seq<uint8>, b: seq<uint8>)
    ensures Accumulate(step, start, a + b) == Accumulate(step, Accumulate(step, start, a), b)
    decreases |b|
  {
    if b == [] {
      assert a + b == a;
    } else {
      var b' := b[.. |b| - 1];
      assert (a + b)[.. |a + b| - 1] == a + b';
      AccumulateConcat(step, start, a, b');
    }
  }

  /**
   * A host that builds `body + LE32(crc)` gets its frame accepted exactly
   * when `crc` is the value the CRC peripheral computes over the body.
   */
  lemma HostFrameAcceptedIff(p: Platform, body: seq<uint8>, crc: uint32, trailer: seq<uint8>)
    requires |body| >= 1 && body[0] == |body| + 3
    ensures WellFramed(body + EncodeLe32(crc) + trailer)
    ensures CrcPasses(p, body + EncodeLe32(crc) + trailer) <==> crc == CrcValue(p.crcStep, p.crcInit, body)
  {
    FrameReadsBack(body, crc, trailer);
  }

  // ---------------------------------------------------------------------
  // Address check
  // ---------------------------------------------------------------------

  /**
   * Both regions are closed intervals: their end points are accepted, and
   * so is the address one past the 128 KiB of SRAM1 when SRAM1_END does not wrap.
   */
  lemma AddressBoundsInclusive(m: MemoryMap)
    requires m.flashBase <= m.flashEnd
    ensures VerifyAddress(m, m.flashBase) == ADDR_VALID
    ensures VerifyAddress(m, m.flashEnd) == ADDR_VALID
    ensures m.sram1Base + SRAM1_SIZE < UINT32_MODULUS ==>
      VerifyAddress(m, m.sram1Base) == ADDR_VALID &&
      VerifyAddress(m, m.sram1Base + SRAM1_SIZE) == ADDR_VALID
  {
  }

  // ---------------------------------------------------------------------
  // RDP level
  // ---------------------------------------------------------------------

  /** The RDP byte sent is byte 1 of the option word as it lies in memory. */
  lemma {:induction false} RdpLevelIsOptionByte1(b: seq<uint8>)
    requires |b| == 4
    ensures RdpLevel(DecodeLe32(b)) == b[1]
  {
    var w := DecodeLe32(b);
    var q2 := b[2] as int + 0x100 * b[3] as int;
    var q1 := b[1] as int + 0x100 * q2;
    DivMod256(w, q1, b[0]);
    DivMod256(q1, q2, b[1]);
  }

  // ---------------------------------------------------------------------
  // Erase translation
  // ---------------------------------------------------------------------

  /** More than seven sectors: INVALID_SECTOR and no unlock, erase or lock. */
  lemma EraseCountAboveSevenTouchesNothing(p: Platform, log0: seq<Event>, s: uint8, n: uint8, indeterminate: uint8)
    requires n > 7
    ensures EraseEvents(p, log0, s, n) == []
    ensures EraseStatus(p, log0, s, n, indeterminate) == INVALID_SECTOR
  {
  }

  /**
   * Every erase that runs is one unlock, one erase call and one lock, and
   * its status is the controller's reply, unchanged; sector numbers 8..0xFE
   * do nothing.
   */
  lemma EraseBracketed(p: Platform, log0: seq<Event>, s: uint8, n: uint8, indeterminate: uint8)
    requires n <= 7
    ensures s == 0xFF || s <= 7 ==>
      var init := EraseDecide(s, n).init;
      var reply := p.flashReply(log0 + [Unlock], Erase(init));
      EraseEvents(p, log0, s, n) == [Unlock, Flash(Erase(init), reply), Lock] &&
      EraseStatus(p, log0, s, n, indeterminate) == reply
    ensures 7 < s < 0xFF ==> EraseEvents(p, log0, s, n) == []
  {
  }

  /**
   * The re-anchoring of the start sector, pinned as written: 4..7 become
   * 3..0, the count is not clamped, so a request can still reach past
   * sector 7 while the requested sector is not the one erased.
   */
  lemma EraseReanchorPinned(s: uint8, n: uint8)
    requires s <= 7 && n <= 7
    ensures EraseDecide(s, n).init.sector <= 3
    ensures s >= 4 ==> EraseDecide(s, n).init.sector == 7 - s
    ensures s <= 3 ==> EraseDecide(s, n).init.sector == s
    ensures EraseDecide(3, 7).init.sector + EraseDecide(3, 7).init.nbSectors - 1 == 9
    ensures EraseDecide(5, 1).init.sector == 2
  {
  }

  // ---------------------------------------------------------------------
  // Byte programming
  // ---------------------------------------------------------------------

  /** One program call per value, in order, all at the same address. */
  lemma {:induction false} ProgramEventsShape(p: Platform, log0: seq<Event>, address: uint32, values: seq<uint8>)
    ensures |ProgramEvents(p, log0, address, values)| == |values|
    ensures forall i :: 0 <= i < |values| ==>
      ProgramEvents(p, log0, address, values)[i].Flash? &&
      ProgramEvents(p, log0, address, values)[i].call == ProgramByte(address, values[i])
  {
    if values != [] {
      ProgramEventsShape(p, log0, address, values[.. |values| - 1]);
    }
  }

  /**
   * memory_write: one unlock, then `|values|` program calls with the values
   * in order, every one at `address`, then one lock; it returns the status
   * of the last program call.
   */
  lemma {:induction false} MemoryWriteShape(p: Platform, log0: seq<Event>, address: uint32, values: seq<uint8>, indeterminate: uint8)
    ensures var e := MemoryWriteEvents(p, log0, address, values);
      |e| == |values| + 2 && e[0] == Unlock && e[|e| - 1] == Lock &&
      forall i :: 0 <= i < |values| ==> e[i + 1].Flash? && e[i + 1].call == ProgramByte(address, values[i])
    ensures values != [] ==>
      var e := MemoryWriteEvents(p, log0, address, values);
      MemoryWriteStatus(p, log0, address, values, indeterminate) == e[|e| - 2].status
  {
    var prog := ProgramEvents(p, log0 + [Unlock], address, values);
    ProgramEventsShape(p, log0 + [Unlock], address, values);
    var e := MemoryWriteEvents(p, log0, address, values);
    assert forall i :: 0 <= i < |values| ==> e[i + 1] == prog[i];
  }

  // ---------------------------------------------------------------------
  // Command handlers
  // ---------------------------------------------------------------------

  /** On a CRC mismatch every handler only sends NACK. */
  lemma MismatchOnlyNacks(p: Platform, log0: seq<Event>, rx: seq<uint8>, indeterminate: uint8)
    requires WellFramed(rx) && !CrcPasses(p, rx)
    ensures RdpCmdTrace(p, rx) == [Transmit([0x7F])]
    ensures GoToAddrCmdTrace(p, rx) == [Transmit([0x7F])]
    ensures FlashEraseCmdTrace(p, log0, rx, indeterminate) == [Transmit([0x7F])]
    ensures |rx| >= 7 ==> MemWriteCmdTrace(p, log0, rx, indeterminate) == [Transmit([0x7F])]
  {
  }

  /** On a CRC match every handler first sends ACK with a follow length of one. */
  lemma MatchAcksFirst(p: Platform, log0: seq<Event>, rx: seq<uint8>, indeterminate: uint8)
    requires WellFramed(rx) && CrcPasses(p, rx)
    ensures RdpCmdTrace(p, rx)[0] == Transmit([0xA5, 0x01])
    ensures |rx| >= 6 ==> GoToAddrCmdTrace(p, rx)[0] == Transmit([0xA5, 0x01])
    ensures FlashEraseCmdTrace(p, log0, rx, indeterminate)[0] == Transmit([0xA5, 0x01])
    ensures |rx| >= 7 && (VerifyAddress(p.memory, Field32(rx, 2)) == ADDR_VALID ==> rx[6] <= |rx|) ==>
      MemWriteCmdTrace(p, log0, rx, indeterminate)[0] == Transmit([0xA5, 0x01])
  {
  }

  /** The RDP query answers with exactly one byte: the option word shifted right by 8, truncated. */
  lemma RdpCmdReply(p: Platform, rx: seq<uint8>)
    requires WellFramed(rx) && CrcPasses(p, rx)
    ensures RdpCmdTrace(p, rx) == [Transmit([0xA5, 0x01]), Transmit([p.optionWord / 0x100 % 0x100])]
  {
  }

  /**
   * The jump command decodes the full address from bytes 2..5 but checks
   * only byte 2: it sends ADDR_VALID and jumps to address + 1 exactly when
   * that byte, as an address, is valid; otherwise nothing follows the ACK.
   */
  lemma GoToChecksByte2Only(p: Platform, rx: seq<uint8>)
    requires WellFramed(rx) && |rx| >= 6 && CrcPasses(p, rx)
    ensures VerifyAddress(p.memory, rx[2]) == ADDR_VALID ==>
      GoToAddrCmdTrace(p, rx) == [Transmit([0xA5, 0x01]), Transmit([0x00]), Jump(ThumbTarget(Field32(rx, 2)))]
    ensures VerifyAddress(p.memory, rx[2]) != ADDR_VALID ==>
      GoToAddrCmdTrace(p, rx) == [Transmit([0xA5, 0x01])]
  {
  }

  /**
   * With both regions starting above 0xFF (as on a device whose flash and
   * SRAM1 live at high addresses) the jump command never jumps.
   */
  lemma GoToNeverJumpsAboveByteRange(p: Platform, rx: seq<uint8>)
    requires WellFramed(rx) && (CrcPasses(p, rx) ==> |rx| >= 6)
    requires p.memory.flashBase > 0xFF && p.memory.sram1Base > 0xFF
    ensures forall e :: e in GoToAddrCmdTrace(p, rx) ==> !e.Jump?
  {
    assert VerifyAddress(p.memory, rx[2]) == ADDR_INVALID;
  }

  /**
   * For a sector number the erase helper handles (0..7 or 0xFF) and a count
   * of at most 7, the erase command's whole trace is ACK, one unlock, one
   * erase of the decided sectors, one lock, then the controller's reply as
   * the one status byte; a larger count is ACK then 0x04 with no flash event.
   */
  lemma EraseCmdWholeTrace(p: Platform, log0: seq<Event>, rx: seq<uint8>, indeterminate: uint8)
    requires WellFramed(rx) && CrcPasses(p, rx)
    ensures rx[3] <= 7 && (rx[2] <= 7 || rx[2] == 0xFF) ==>
      var init := EraseDecide(rx[2], rx[3]).init;
      var reply := p.flashReply(log0 + [Transmit([0xA5, 0x01]), Unlock], Erase(init));
      FlashEraseCmdTrace(p, log0, rx, indeterminate) ==
        [Transmit([0xA5, 0x01]), Unlock, Flash(Erase(init), reply), Lock, Transmit([reply])]
    ensures rx[3] > 7 ==>
      FlashEraseCmdTrace(p, log0, rx, indeterminate) == [Transmit([0xA5, 0x01]), Transmit([0x04])]
  {
    assert log0 + [Transmit([0xA5, 0x01])] + [Unlock] == log0 + [Transmit([0xA5, 0x01]), Unlock];
  }

  /** The write command with an invalid address reports 0x01 and writes nothing. */
  lemma MemWriteInvalidAddress(p: Platform, log0: seq<Event>, rx: seq<uint8>, indeterminate: uint8)
    requires WellFramed(rx) && |rx| >= 7 && CrcPasses(p, rx)
    requires VerifyAddress(p.memory, Field32(rx, 2)) == ADDR_INVALID
    ensures MemWriteCmdTrace(p, log0, rx, indeterminate) == [Transmit([0xA5, 0x01]), Transmit([0x01])]
  {
  }

  /**
   * The write command with a valid address programs the first rx[6] bytes
   * of the frame itself (starting with its length byte), each at the same
   * address, between one unlock and one lock, and then sends the last
   * program status.
   */
  lemma {:induction false} MemWriteProgramsFrameStart(p: Platform, log0: seq<Event>, rx: seq<uint8>, indeterminate: uint8)
    requires WellFramed(rx) && |rx| >= 7 && rx[6] <= |rx| && CrcPasses(p, rx)
    requires VerifyAddress(p.memory, Field32(rx, 2)) == ADDR_VALID
    ensures |MemWriteCmdTrace(p, log0, rx, indeterminate)| == rx[6] as int + 4
    ensures MemWriteCmdTrace(p, log0, rx, indeterminate)[0] == Transmit([0xA5, 0x01])
    ensures MemWriteCmdTrace(p, log0, rx, indeterminate)[1] == Unlock
    ensures MemWriteCmdTrace(p, log0, rx, indeterminate)[rx[6] as int + 2] == Lock
    ensures MemWriteCmdTrace(p, log0, rx, indeterminate)[rx[6] as int + 3] ==
      Transmit([MemoryWriteStatus(p, log0 + [Transmit([0xA5, 0x01])], Field32(rx, 2), rx[.. rx[6]], indeterminate)])
    ensures forall j: int :: 2 <= j < rx[6] as int + 2 ==>
      MemWriteCmdTrace(p, log0, rx, indeterminate)[j].Flash? &&
      MemWriteCmdTrace(p, log0, rx, indeterminate)[j].call == ProgramByte(Field32(rx, 2), rx[j - 2])
  {
    var memAddr := Field32(rx, 2);
    var acked := log0 + [Transmit(AckReply(1))];
    var values := rx[.. rx[6]];
    MemoryWriteShape(p, acked, memAddr, values, indeterminate);
    var w := MemoryWriteEvents(p, acked, memAddr, values);
    var reply := Transmit([MemoryWriteStatus(p, acked, memAddr, values, indeterminate)]);
    var t := MemWriteCmdTrace(p, log0, rx, indeterminate);
    assert t == [Transmit(AckReply(1))] + w + [reply];
    assert |t| == |w| + 2;
    forall j: int | 2 <= j < rx[6] as int + 2
      ensures t[j].Flash? && t[j].call == ProgramByte(Field32(rx, 2), rx[j - 2])
    {
      assert t[j] == w[j - 1];
      assert values[j - 2] == rx[j - 2];
    }
  }
}
