/** PSWebSocketInternal.h: its own copy of the opcode enumeration and of the
    header masks, and the protocol predicates the driver applies to every
    received frame header and Close status code. */
module Internal {
  import Rfc6455
  import Types

  // The header's copy of the PSWebSocketOpCode enumerators.
  const OpCodeContinuation: Types.uint8 := 0x0
  const OpCodeText: Types.uint8 := 0x1
  const OpCodeBinary: Types.uint8 := 0x2
  const OpCodeClose: Types.uint8 := 0x8
  const OpCodePing: Types.uint8 := 0x9
  const OpCodePong: Types.uint8 := 0xA

  // The header's copy of the frame-header masks.
  const FinMask: Types.uint8 := 0x80
  const OpCodeMask: Types.uint8 := 0x0F
  const Rsv1Mask: Types.uint8 := 0x40
  const Rsv2Mask: Types.uint8 := 0x20
  const Rsv3Mask: Types.uint8 := 0x10
  const MaskMask: Types.uint8 := 0x80
  const PayloadLenMask: Types.uint8 := 0x7F

  /** Whether an opcode byte names a control frame (Close, Ping or Pong):
      exactly the defined opcodes of the protocol's control class. The
      reserved control opcodes 0xB-0xF are not accepted. */
  function OpCodeIsControl(opcode: Types.uint8): (r: bool)
    ensures r <==> Rfc6455.DefinedOpCode(opcode) && Rfc6455.ControlOpCode(opcode)
  {
    opcode == OpCodeClose || opcode == OpCodePing || opcode == OpCodePong
  }

  /** Whether an opcode byte is one the protocol defines: exactly the
      non-reserved 4-bit values. */
  function OpCodeIsValid(opcode: Types.uint8): (r: bool)
    ensures r <==> Rfc6455.DefinedOpCode(opcode)
  {
    opcode == OpCodeClose || opcode == OpCodePing || opcode == OpCodePong
    || opcode == OpCodeText || opcode == OpCodeBinary || opcode == OpCodeContinuation
  }

  /** Whether a Close status code may be sent or accepted: exactly the codes
      the protocol lets an endpoint put in a Close frame. */
  function CloseCodeIsValid(closeCode: Types.int64): (r: bool)
    ensures r <==> Rfc6455.LegalStatusCode(closeCode as int)
  {
    if closeCode < 1000 then false
    else if 1000 <= closeCode <= 1011 then
      !(closeCode == 1004 || closeCode == 1005 || closeCode == 1006)
    else if 3000 <= closeCode <= 3999 then true
    else if 4000 <= closeCode <= 4999 then true
    else false
  }

  /** The control opcodes are exactly Close, Ping and Pong. */
  lemma ControlOpCodesExactly(opcode: Types.uint8)
    ensures OpCodeIsControl(opcode) <==> opcode in {0x8, 0x9, 0xA}
  {
  }

  /** The valid opcodes are exactly the six named ones; every reserved
      value is invalid. */
  lemma ValidOpCodesExactly(opcode: Types.uint8)
    ensures OpCodeIsValid(opcode) <==> opcode in {0x0, 0x1, 0x2, 0x8, 0x9, 0xA}
    ensures Rfc6455.ReservedOpCode(opcode) ==> !OpCodeIsValid(opcode)
    ensures OpCodeIsValid(opcode) <==> exists op: Types.OpCode :: op.Value() == opcode
  {
    Types.OpCodeNamesExactlyDefined(opcode);
  }

  /** Every control opcode is valid, and no data opcode is a control opcode. */
  lemma ControlIsValidAndDataIsNot(opcode: Types.uint8)
    ensures OpCodeIsControl(opcode) ==> OpCodeIsValid(opcode)
    ensures opcode in {OpCodeContinuation, OpCodeText, OpCodeBinary} ==> OpCodeIsValid(opcode) && !OpCodeIsControl(opcode)
    ensures OpCodeIsValid(opcode) && !OpCodeIsControl(opcode) <==> Rfc6455.DefinedOpCode(opcode) && Rfc6455.DataOpCode(opcode)
  {
  }

  /** The protocol reserves 0xB-0xF for further control frames; the control
      test, like the validity test, rejects all of them. */
  lemma ReservedControlOpCodesRejected(opcode: Types.uint8)
    ensures 0xB <= opcode <= 0xF ==> Rfc6455.ControlOpCode(opcode) && !OpCodeIsControl(opcode) && !OpCodeIsValid(opcode)
  {
  }

  /** Closed form of the close-code rule. */
  lemma CloseCodeClosedForm(c: Types.int64)
    ensures CloseCodeIsValid(c) <==> (1000 <= c <= 1011 && c !in {1004, 1005, 1006}) || (3000 <= c <= 4999)
  {
  }

  /** The rule range by range: below 1000 nothing is valid; within 1000-1011
      all but 1004, 1005 and 1006 are; 1012-2999 and 5000 up are invalid;
      3000-4999 are all valid. */
  lemma CloseCodeRanges(c: Types.int64)
    ensures c < 1000 ==> !CloseCodeIsValid(c)
    ensures 1000 <= c <= 1011 ==> (CloseCodeIsValid(c) <==> c != 1004 && c != 1005 && c != 1006)
    ensures 1012 <= c <= 2999 ==> !CloseCodeIsValid(c)
    ensures 3000 <= c <= 4999 ==> CloseCodeIsValid(c)
    ensures 5000 <= c ==> !CloseCodeIsValid(c)
  {
  }

  /** This header's opcode enumerators have the same values as the
      enumeration of PSWebSocketTypes.h. */
  lemma OpCodeEnumCopiesAgree()
    ensures OpCodeContinuation == Types.OpCode.Continuation.Value()
    ensures OpCodeText == Types.OpCode.Text.Value()
    ensures OpCodeBinary == Types.OpCode.Binary.Value()
    ensures OpCodeClose == Types.OpCode.Close.Value()
    ensures OpCodePing == Types.OpCode.Ping.Value()
    ensures OpCodePong == Types.OpCode.Pong.Value()
  {
  }

  /** This header's masks have the same values as those of
      PSWebSocketTypes.h. */
  lemma MaskCopiesAgree()
    ensures FinMask == Types.FinMask && OpCodeMask == Types.OpCodeMask
    ensures Rsv1Mask == Types.Rsv1Mask && Rsv2Mask == Types.Rsv2Mask && Rsv3Mask == Types.Rsv3Mask
    ensures MaskMask == Types.MaskMask && PayloadLenMask == Types.PayloadLenMask
  {
  }
}
