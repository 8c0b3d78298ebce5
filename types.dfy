/** PSWebSocketTypes.h: the opcode and mode enumerations and the bit masks
    that split the first two bytes of a WebSocket frame header. */
module Types {
  import Rfc6455

  /** uint8_t: a header byte, or an opcode held in the uint8_t-based enum. */
  type uint8 = bv8

  /** NSInteger on a 64-bit platform. */
  newtype int64 = x: int | -0x8000_0000_0000_0000 <= x < 0x8000_0000_0000_0000

  /** The six named values of PSWebSocketOpCode. */
  datatype OpCode = Continuation | Text | Binary | Close | Ping | Pong {

    /** The enumerator's raw value. */
    function Value(): (b: uint8)
      ensures Continuation? ==> b == Rfc6455.ContinuationFrame
      ensures Text? ==> b == Rfc6455.TextFrame
      ensures Binary? ==> b == Rfc6455.BinaryFrame
      ensures Close? ==> b == Rfc6455.CloseFrame
      ensures Ping? ==> b == Rfc6455.PingFrame
      ensures Pong? ==> b == Rfc6455.PongFrame
      ensures Rfc6455.DefinedOpCode(b)
      ensures Rfc6455.ControlOpCode(b) <==> (Close? || Ping? || Pong?)
    {
      match this
      case Continuation => 0x0
      case Text => 0x1
      case Binary => 0x2
      case Close => 0x8
      case Ping => 0x9
      case Pong => 0xA
    }
  }

  /** Distinct enumerators have distinct values. */
  lemma OpCodeValueInjective(x: OpCode, y: OpCode)
    ensures x.Value() == y.Value() ==> x == y
  {
  }

  /** The enumerators name exactly the opcodes the protocol defines: no
      defined opcode is missing and no reserved one is named. */
  lemma {:induction false} OpCodeNamesExactlyDefined(b: uint8)
    ensures Rfc6455.DefinedOpCode(b) <==> exists op: OpCode :: op.Value() == b
  {
    if Rfc6455.DefinedOpCode(b) {
      var op :=
        if b == 0x0 then Continuation
        else if b == 0x1 then Text
        else if b == 0x2 then Binary
        else if b == 0x8 then Close
        else if b == 0x9 then Ping
        else Pong;
      assert op.Value() == b;
    }
  }

  /** PSWebSocketMode: the role of the endpoint. */
  datatype Mode = Client | Server {

    /** The enumerator's raw value: Client is 0 and Server follows it. */
    function Value(): (v: int64)
      ensures 0 <= v <= 1
    {
      match this
      case Client => 0
      case Server => 1
    }
  }

  /** PSWebSocketMode has exactly two values, 0 and 1, one per enumerator. */
  lemma {:induction false} ModeValuesExactly(v: int64)
    ensures (exists m: Mode :: m.Value() == v) <==> v == 0 || v == 1
    ensures Client.Value() == 0 && Server.Value() == 1
  {
    if v == 0 {
      assert Client.Value() == v;
    } else if v == 1 {
      assert Server.Value() == v;
    }
  }

  // Byte 0 of a frame header: FIN, RSV1, RSV2, RSV3 and the 4-bit opcode.
  const FinMask: uint8 := 0x80
  const OpCodeMask: uint8 := 0x0F
  const Rsv1Mask: uint8 := 0x40
  const Rsv2Mask: uint8 := 0x20
  const Rsv3Mask: uint8 := 0x10
  // Byte 1 of a frame header: MASK and the 7-bit payload length.
  const MaskMask: uint8 := 0x80
  const PayloadLenMask: uint8 := 0x7F

  /** A mask that selects exactly one bit. */
  predicate SingleBit(m: uint8) {
    m != 0 && m & (m - 1) == 0
  }

  /** The byte-0 masks partition the byte: four distinct single bits, none
      inside the opcode field, together covering all eight bits. */
  lemma Byte0MasksPartition()
    ensures SingleBit(FinMask) && SingleBit(Rsv1Mask) && SingleBit(Rsv2Mask) && SingleBit(Rsv3Mask)
    ensures FinMask != Rsv1Mask && FinMask != Rsv2Mask && FinMask != Rsv3Mask
    ensures Rsv1Mask != Rsv2Mask && Rsv1Mask != Rsv3Mask && Rsv2Mask != Rsv3Mask
    ensures (FinMask | Rsv1Mask | Rsv2Mask | Rsv3Mask) & OpCodeMask == 0
    ensures FinMask | Rsv1Mask | Rsv2Mask | Rsv3Mask | OpCodeMask == 0xFF
  {
  }

  /** The byte-1 masks are disjoint and together cover all eight bits. */
  lemma Byte1MasksPartition()
    ensures SingleBit(MaskMask)
    ensures MaskMask & PayloadLenMask == 0
    ensures MaskMask | PayloadLenMask == 0xFF
  {
  }

  /** The fields of header byte 0. */
  datatype Byte0 = Byte0(fin: bool, rsv1: bool, rsv2: bool, rsv3: bool, opcode: uint8)

  /** Packs the fields into a byte with the masks; the opcode must fit the
      4-bit field. The byte has the protocol's layout, and each mask reads
      back the field it was given. */
  function EncodeByte0(h: Byte0): (b: uint8)
    requires h.opcode <= OpCodeMask
    ensures b as int == Rfc6455.Byte0(h.fin, h.rsv1, h.rsv2, h.rsv3, h.opcode as int)
    ensures (b & FinMask != 0) == h.fin
    ensures (b & Rsv1Mask != 0) == h.rsv1
    ensures (b & Rsv2Mask != 0) == h.rsv2
    ensures (b & Rsv3Mask != 0) == h.rsv3
    ensures b & OpCodeMask == h.opcode
  {
    (if h.fin then FinMask else 0)
    | (if h.rsv1 then Rsv1Mask else 0)
    | (if h.rsv2 then Rsv2Mask else 0)
    | (if h.rsv3 then Rsv3Mask else 0)
    | h.opcode
  }

  /** Splits a byte into its fields with the masks. The opcode field never
      exceeds 15, and packing the fields again gives the byte back. */
  function DecodeByte0(b: uint8): (h: Byte0)
    ensures h.opcode <= 15
    ensures EncodeByte0(h) == b
  {
    Byte0(b & FinMask != 0, b & Rsv1Mask != 0, b & Rsv2Mask != 0, b & Rsv3Mask != 0, b & OpCodeMask)
  }

  /** Every byte is the OR of its five masked parts. */
  lemma Byte0Reassembles(b: uint8)
    ensures (b & FinMask) | (b & Rsv1Mask) | (b & Rsv2Mask) | (b & Rsv3Mask) | (b & OpCodeMask) == b
  {
  }

  /** Encoding fields and decoding the byte returns the same fields. */
  lemma Byte0RoundTrip(h: Byte0)
    requires h.opcode <= OpCodeMask
    ensures DecodeByte0(EncodeByte0(h)) == h
  {
  }

  /** The fields of header byte 1. */
  datatype Byte1 = Byte1(masked: bool, payloadLen: uint8)

  /** Packs the MASK bit and a 7-bit length into a byte. The byte has the
      protocol's layout, and each mask reads back its field. */
  function EncodeByte1(h: Byte1): (b: uint8)
    requires h.payloadLen <= PayloadLenMask
    ensures b as int == Rfc6455.Byte1(h.masked, h.payloadLen as int)
    ensures (b & MaskMask != 0) == h.masked
    ensures b & PayloadLenMask == h.payloadLen
  {
    (if h.masked then MaskMask else 0) | h.payloadLen
  }

  /** Splits a byte into the MASK bit and the length field; the length is at
      most 127, and packing the fields again gives the byte back. */
  function DecodeByte1(b: uint8): (h: Byte1)
    ensures h.payloadLen <= 127
    ensures EncodeByte1(h) == b
  {
    Byte1(b & MaskMask != 0, b & PayloadLenMask)
  }

  /** Every byte is the OR of its two masked parts. */
  lemma Byte1Reassembles(b: uint8)
    ensures (b & MaskMask) | (b & PayloadLenMask) == b
  {
  }

  /** Encoding the fields and decoding the byte returns the same fields. */
  lemma Byte1RoundTrip(h: Byte1)
    requires h.payloadLen <= PayloadLenMask
    ensures DecodeByte1(EncodeByte1(h)) == h
  {
  }

  /** The length field ranges over exactly 0..127: every value in that range
      is the field of some byte, with the MASK bit set or clear. */
  lemma {:induction false} PayloadLenRange(n: uint8, masked: bool)
    ensures n <= 127 <==> exists b: uint8 :: DecodeByte1(b) == Byte1(masked, n)
  {
    if n <= 127 {
      var b := EncodeByte1(Byte1(masked, n));
      assert DecodeByte1(b) == Byte1(masked, n);
    }
  }
}
