/**
 * The layout of a command frame: `[length][command id][payload][4-byte CRC]`,
 * where `length` is the frame length minus one and multi-byte fields are
 * little-endian.
 */
module Frame {
  import opened BlDefine

  /** A 32-bit word read from four bytes in little-endian order. */
  function DecodeLe32(b: seq<uint8>): uint32
    requires |b| == 4
  {
    b[0] as int + 0x100 * b[1] as int + 0x1_0000 * b[2] as int + 0x100_0000 * b[3] as int
  }

  /** The four bytes of a 32-bit word, least significant first. */
  function EncodeLe32(w: uint32): (b: seq<uint8>)
    ensures |b| == 4
  {
    [w % 0x100, w / 0x100 % 0x100, w / 0x100 / 0x100 % 0x100, w / 0x100 / 0x100 / 0x100]
  }

  /** Dividing by 256 recovers the quotient and the remainder. */
  lemma DivMod256(x: int, q: int, r: int)
    requires 0 <= r < 0x100 && x == q * 0x100 + r
    ensures x / 0x100 == q && x % 0x100 == r
  {
  }

  lemma {:induction false} DecodeEncodeLe32(w: uint32)
    ensures DecodeLe32(EncodeLe32(w)) == w
  {
    var q1 := w / 0x100;
    var q2 := q1 / 0x100;
    var q3 := q2 / 0x100;
    assert w == q1 * 0x100 + w % 0x100;
    assert q1 == q2 * 0x100 + q1 % 0x100;
    assert q2 == q3 * 0x100 + q2 % 0x100;
  }

  lemma {:induction false} EncodeDecodeLe32(b: seq<uint8>)
    requires |b| == 4
    ensures EncodeLe32(DecodeLe32(b)) == b
  {
    var w := DecodeLe32(b);
    var q2 := b[2] as int + 0x100 * b[3] as int;
    var q1 := b[1] as int + 0x100 * q2;
    DivMod256(w, q1, b[0]);
    DivMod256(q1, q2, b[1]);
    DivMod256(q2, b[3], b[2]);
  }

  /** A frame the handlers can read without running off its end or wrapping the CRC length. */
  predicate WellFramed(rx: seq<uint8>)
  {
    |rx| > 0 && rx[0] >= 3 && |rx| >= rx[0] as int + 1
  }

  /** `command_packet_len`: the length byte plus one. */
  function PacketLen(rx: seq<uint8>): (n: nat)
    requires |rx| > 0
    ensures 1 <= n <= 0x100
    ensures WellFramed(rx) ==> 4 <= n <= |rx|
  {
    rx[0] as int + 1
  }

  /** The host's CRC: the last four bytes of the frame, little-endian. */
  function HostCrc(rx: seq<uint8>): (h: uint32)
    requires WellFramed(rx)
    ensures EncodeLe32(h) == rx[PacketLen(rx) - 4 .. PacketLen(rx)]
  {
    EncodeDecodeLe32(rx[PacketLen(rx) - 4 .. PacketLen(rx)]);
    DecodeLe32(rx[PacketLen(rx) - 4 .. PacketLen(rx)])
  }

  /** The bytes the CRC covers: everything before the host's CRC. */
  function Covered(rx: seq<uint8>): (c: seq<uint8>)
    requires WellFramed(rx)
    ensures |c| + 3 == rx[0]
    ensures forall i :: 0 <= i < |c| ==> c[i] == rx[i]
  {
    rx[.. PacketLen(rx) - 4]
  }

  /** The 32-bit little-endian field that starts at byte `at`. */
  function Field32(rx: seq<uint8>, at: nat): (w: uint32)
    requires at + 4 <= |rx|
    ensures EncodeLe32(w) == rx[at .. at + 4]
  {
    EncodeDecodeLe32(rx[at .. at + 4]);
    DecodeLe32(rx[at .. at + 4])
  }

  /**
   * A host builds a frame as its body (length byte first) followed by the
   * CRC, little-endian. The frame reads back as that body and that CRC.
   */
  lemma {:induction false} FrameReadsBack(body: seq<uint8>, crc: uint32, trailer: seq<uint8>)
    requires |body| >= 1 && body[0] == |body| + 3
    ensures WellFramed(body + EncodeLe32(crc) + trailer)
    ensures Covered(body + EncodeLe32(crc) + trailer) == body
    ensures HostCrc(body + EncodeLe32(crc) + trailer) == crc
  {
    var rx := body + EncodeLe32(crc) + trailer;
    assert rx[0] == body[0];
    assert PacketLen(rx) == |body| + 4;
    assert rx[.. |body|] == body;
    assert rx[|body| .. |body| + 4] == EncodeLe32(crc);
    DecodeEncodeLe32(crc);
  }
}
