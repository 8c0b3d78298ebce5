/** PSWebSocketMacros.h: a second copy of the protocol predicates, written
    against the opcode enumeration of PSWebSocketTypes.h. Each agrees with
    its twin in PSWebSocketInternal.h on every input. */
module Macros {
  import Rfc6455
  import Types
  import Internal

  /** Whether an opcode byte names a control frame; the same answer as the
      PSWebSocketInternal.h copy, true exactly for 0x8, 0x9 and 0xA. */
  function OpCodeIsControl(opcode: Types.uint8): (r: bool)
    ensures r == Internal.OpCodeIsControl(opcode)
    ensures r <==> opcode in {0x8, 0x9, 0xA}
  {
    opcode == Types.OpCode.Close.Value() || opcode == Types.OpCode.Ping.Value() || opcode == Types.OpCode.Pong.Value()
  }

  /** Whether an opcode byte is one the protocol defines; the same answer as
      the PSWebSocketInternal.h copy, true exactly for the six legal opcodes. */
  function OpCodeIsValid(opcode: Types.uint8): (r: bool)
    ensures r == Internal.OpCodeIsValid(opcode)
    ensures r <==> opcode in {0x0, 0x1, 0x2, 0x8, 0x9, 0xA}
  {
    opcode == Types.OpCode.Close.Value() || opcode == Types.OpCode.Ping.Value() || opcode == Types.OpCode.Pong.Value()
    || opcode == Types.OpCode.Text.Value() || opcode == Types.OpCode.Binary.Value() || opcode == Types.OpCode.Continuation.Value()
  }

  /** Whether a Close status code may be sent or accepted; the same answer as
      the PSWebSocketInternal.h copy, and the same closed form. */
  function CloseCodeIsValid(closeCode: Types.int64): (r: bool)
    ensures r == Internal.CloseCodeIsValid(closeCode)
    ensures r <==> (1000 <= closeCode <= 1011 && closeCode !in {1004, 1005, 1006}) || (3000 <= closeCode <= 4999)
  {
    if closeCode < 1000 then false
    else if 1000 <= closeCode <= 1011 then
      !(closeCode == 1004 || closeCode == 1005 || closeCode == 1006)
    else if 3000 <= closeCode <= 3999 then true
    else if 4000 <= closeCode <= 4999 then true
    else false
  }

  /** The reserved codes 1004, 1005 and 1006 are rejected, while every
      other code of the protocol's own 1000-1011 block is accepted. */
  lemma ReservedCloseCodesRejected()
    ensures !CloseCodeIsValid(1004) && !CloseCodeIsValid(1005) && !CloseCodeIsValid(1006)
    ensures forall c: Types.int64 :: 1000 <= c <= 1011 && CloseCodeIsValid(c) ==> Rfc6455.DefinedStatusCode(c as int)
  {
  }
}
