/** Reference definitions taken from the WebSocket protocol itself (RFC 6455),
    written from the standard's tables and independently of how PocketSocket
    phrases its checks. The PocketSocket predicates are proved against these. */
module Rfc6455 {

  /** Section 5.2: opcodes 0x3-0x7 are reserved for further non-control
      frames and 0xB-0xF for further control frames. */
  predicate ReservedOpCode(op: bv8) {
    (0x3 <= op <= 0x7) || (0xB <= op <= 0xF)
  }

  /** An opcode the protocol defines: a 4-bit value that is not reserved. */
  predicate DefinedOpCode(op: bv8) {
    op <= 0xF && !ReservedOpCode(op)
  }

  /** Section 5.2: the opcode table, by name. */
  const ContinuationFrame: bv8 := 0x0
  const TextFrame: bv8 := 0x1
  const BinaryFrame: bv8 := 0x2
  const CloseFrame: bv8 := 0x8
  const PingFrame: bv8 := 0x9
  const PongFrame: bv8 := 0xA

  /** Section 5.5: the control-frame class, the 4-bit opcodes whose most
      significant bit is set (0x8-0xF, of which 0xB-0xF are reserved for
      further control frames). */
  predicate ControlOpCode(op: bv8) {
    op <= 0xF && op & 0x8 != 0
  }

  /** Sections 5.4 and 5.6: the data-frame class, the 4-bit opcodes whose
      most significant bit is clear (0x0-0x7, of which 0x3-0x7 are reserved
      for further non-control frames). */
  predicate DataOpCode(op: bv8) {
    op <= 0xF && op & 0x8 == 0
  }

  /** Section 5.2: the first header byte, most significant bit first, holds
      FIN, RSV1, RSV2, RSV3 and then the 4-bit opcode. */
  function Byte0(fin: bool, rsv1: bool, rsv2: bool, rsv3: bool, opcode: int): int {
    (if fin then 128 else 0) + (if rsv1 then 64 else 0) + (if rsv2 then 32 else 0)
    + (if rsv3 then 16 else 0) + opcode
  }

  /** Section 5.2: the second header byte holds the MASK bit and then the
      7-bit payload length. */
  function Byte1(masked: bool, payloadLen: int): int {
    (if masked then 128 else 0) + payloadLen
  }

  /** Section 7.4.1: the status codes the standard defines for an endpoint to
      put in a Close frame. 1004 is reserved, and 1005 and 1006 must not be set
      as a status code in a Close frame, so none of the three is listed. */
  predicate DefinedStatusCode(c: int) {
    c in {1000, 1001, 1002, 1003, 1007, 1008, 1009, 1010, 1011}
  }

  /** Section 7.4.2: 3000-3999 are registered for libraries, frameworks and
      applications, and 4000-4999 are for private use. 0-999 are not used and
      1012-2999 are reserved for later revisions of the protocol. */
  predicate ApplicationStatusCode(c: int) {
    3000 <= c <= 4999
  }

  /** A status code an endpoint may send, and accept, in a Close frame. */
  predicate LegalStatusCode(c: int) {
    DefinedStatusCode(c) || ApplicationStatusCode(c)
  }
}
