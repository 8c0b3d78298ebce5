# PocketSocket frame-header and close-code rules in Dafny

PocketSocket is an Objective-C implementation of the WebSocket protocol
(RFC 6455). This project models the protocol rules that its headers spell
out as executable code:

- the opcode enumeration `PSWebSocketOpCode` and the predicates
  `PSWebSocketOpCodeIsControl` and `PSWebSocketOpCodeIsValid`, which classify
  the 4-bit opcode of a frame header;
- `PSWebSocketCloseCodeIsValid`, which decides whether a Close status code may
  be sent or accepted;
- the `PSWebSocketMode` enumeration (client or server);
- the bit masks that split byte 0 of a frame header into FIN, RSV1, RSV2, RSV3
  and the opcode, and byte 1 into the MASK bit and the 7-bit payload length.

The three predicates exist twice in the source, once in
`PSWebSocketInternal.h` and once in `PSWebSocketMacros.h`. The enumeration and
the masks also exist twice, in `PSWebSocketInternal.h` and
`PSWebSocketTypes.h`. The model keeps each header as its own module and proves
that the copies agree on every input.

Modules, one per header, plus a reference:

- `Rfc6455` (`rfc6455.dfy`): the protocol's own rules, written from the opcode
  tables of sections 5.2 and 5.5 and the status-code lists of sections 7.4.1
  and 7.4.2 of RFC 6455. The PocketSocket predicates are proved equal to
  these.
- `Types` (`types.dfy`): `PSWebSocketTypes.h`. The enumerations are
  datatypes with a `Value()` function giving the raw value. The masks are
  `bv8` constants. `EncodeByte0`/`DecodeByte0` and `EncodeByte1`/`DecodeByte1`
  pack and split header bytes with those masks.
- `Internal` (`internal.dfy`): `PSWebSocketInternal.h`, with its own
  enumerator constants and masks, and the three predicates.
- `Macros` (`macros.dfy`): `PSWebSocketMacros.h`. Its predicates compare
  against the enumeration of `PSWebSocketTypes.h`, which that header imports.
- `StatusCodes` (`status_codes.dfy`): the named codes of
  `PSWebSocketStatusCodes.h`, used to state which of them the close-code rule
  accepts.

Types: an opcode is a `uint8` (`bv8`), because the enumeration is declared
over `uint8_t` and a parsed header can carry any 4-bit value. A close code is
an `int64`, because the C parameter is an `NSInteger`. The close-code rule only
compares values, so the width never changes the answer.

`PSWebSocketInternal.h` imports `PSWebSocketTypes.h` and then declares the
same enumeration and the same `static const` masks again. As C, the two
headers therefore cannot both be included in one translation unit. The model
does not depend on this: it treats the two declarations as separate modules.

## Model

| member | source | states |
|---|---|---|
| `Types.OpCode.Value` | PocketSocket/PSWebSocketTypes.h:11-20 | each enumerator has the value the opcode table of section 5.2 of RFC 6455 gives its name (Continuation 0x0, Text 0x1, Binary 0x2, Close 0x8, Ping 0x9, Pong 0xA); each is a defined, non-reserved opcode, in the control class exactly for Close, Ping and Pong |
| `Types.OpCodeValueInjective` | PocketSocket/PSWebSocketTypes.h:11-20 | distinct enumerators have distinct values |
| `Types.OpCodeNamesExactlyDefined` | PocketSocket/PSWebSocketTypes.h:11-20 | a byte is the value of some enumerator exactly when the protocol defines it as an opcode: no defined opcode is missing and no reserved value (0x3-0x7, 0xB-0xF) is named |
| `Types.Mode.Value` | PocketSocket/PSWebSocketTypes.h:22-25 | the raw value of a mode is 0 or 1 |
| `Types.ModeValuesExactly` | PocketSocket/PSWebSocketTypes.h:22-25 | the mode enumeration has exactly the two values Client = 0 and Server = 1 |
| `Types.Byte0MasksPartition` | PocketSocket/PSWebSocketTypes.h:27-31 | FIN, RSV1, RSV2 and RSV3 are distinct single bits, disjoint from the opcode mask, and all five masks OR to 0xFF |
| `Types.Byte1MasksPartition` | PocketSocket/PSWebSocketTypes.h:32-33 | the MASK bit is a single bit, disjoint from the payload-length mask, and the two OR to 0xFF |
| `Types.EncodeByte0` | PocketSocket/PSWebSocketTypes.h:27-31 | packing FIN, RSV1-3 and a 4-bit opcode gives the byte 128·FIN + 64·RSV1 + 32·RSV2 + 16·RSV3 + opcode, the layout of section 5.2 of RFC 6455, and each mask reads back the field it was given |
| `Types.DecodeByte0` | PocketSocket/PSWebSocketTypes.h:27-31 | the opcode read with the opcode mask is at most 15, and packing the fields read from a byte gives the byte back |
| `Types.Byte0Reassembles` | PocketSocket/PSWebSocketTypes.h:27-31 | every byte equals the OR of its FIN, RSV1, RSV2, RSV3 and opcode parts |
| `Types.Byte0RoundTrip` | PocketSocket/PSWebSocketTypes.h:27-31 | encoding fields with a 4-bit opcode and decoding the byte returns the same fields |
| `Types.EncodeByte1` | PocketSocket/PSWebSocketTypes.h:32-33 | packing the MASK bit and a 7-bit length gives the byte 128·MASK + length, the layout of section 5.2 of RFC 6455, and each mask reads back its field |
| `Types.DecodeByte1` | PocketSocket/PSWebSocketTypes.h:32-33 | the payload length read with its mask is at most 127, and packing the fields gives the byte back |
| `Types.Byte1Reassembles` | PocketSocket/PSWebSocketTypes.h:32-33 | every byte equals the OR of its MASK and payload-length parts |
| `Types.Byte1RoundTrip` | PocketSocket/PSWebSocketTypes.h:32-33 | encoding the MASK bit and a 7-bit length and decoding the byte returns the same fields |
| `Types.PayloadLenRange` | PocketSocket/PSWebSocketTypes.h:33 | the 7-bit length field takes exactly the values 0..127, each with the MASK bit set or clear |
| `Internal.OpCodeIsControl` | PocketSocket/PSWebSocketInternal.h:53-57 | true exactly for the defined opcodes of the protocol's control class (most significant opcode bit set); the reserved control opcodes are not accepted |
| `Internal.OpCodeIsValid` | PocketSocket/PSWebSocketInternal.h:59-66 | true exactly for the 4-bit opcodes the protocol does not reserve |
| `Internal.CloseCodeIsValid` | PocketSocket/PSWebSocketInternal.h:69-88 | true exactly for the status codes the protocol lets an endpoint put in a Close frame: the defined codes of 1000-1011 and the 3000-4999 application range |
| `Internal.ControlOpCodesExactly` | PocketSocket/PSWebSocketInternal.h:53-57 | the control test is true exactly for 0x8 (Close), 0x9 (Ping) and 0xA (Pong) |
| `Internal.ValidOpCodesExactly` | PocketSocket/PSWebSocketInternal.h:59-66 | the validity test is true exactly for 0x0, 0x1, 0x2, 0x8, 0x9 and 0xA, which are the values of the opcode enumeration; every reserved value is invalid |
| `Internal.ControlIsValidAndDataIsNot` | PocketSocket/PSWebSocketInternal.h:53-66 | every control opcode is valid; Continuation, Text and Binary are valid and not control; valid and not control is exactly the defined opcodes of the protocol's data class |
| `Internal.ReservedControlOpCodesRejected` | PocketSocket/PSWebSocketInternal.h:53-66 | the values 0xB-0xF, which the protocol reserves for further control frames, are in the control class yet rejected by both the control test and the validity test |
| `Internal.CloseCodeClosedForm` | PocketSocket/PSWebSocketInternal.h:69-88 | a close code is valid exactly when it lies in 1000-1011 and is not 1004, 1005 or 1006, or lies in 3000-4999 |
| `Internal.CloseCodeRanges` | PocketSocket/PSWebSocketInternal.h:70-87 | below 1000 invalid; within 1000-1011 valid except 1004, 1005, 1006; 1012-2999 invalid; 3000-4999 valid; 5000 and above invalid |
| `Internal.OpCodeEnumCopiesAgree` | PocketSocket/PSWebSocketInternal.h:19-28 | this header's six opcode enumerators have the values of the PSWebSocketTypes.h enumeration |
| `Internal.MaskCopiesAgree` | PocketSocket/PSWebSocketInternal.h:30-36 | this header's seven masks equal those of PSWebSocketTypes.h |
| `Macros.OpCodeIsControl` | PocketSocket/PSWebSocketMacros.h:27-31 | agrees with the PSWebSocketInternal.h copy on every byte, and is true exactly for 0x8, 0x9 and 0xA |
| `Macros.OpCodeIsValid` | PocketSocket/PSWebSocketMacros.h:33-40 | agrees with the PSWebSocketInternal.h copy on every byte, and is true exactly for the six legal opcodes |
| `Macros.CloseCodeIsValid` | PocketSocket/PSWebSocketMacros.h:43-62 | agrees with the PSWebSocketInternal.h copy on every code, and satisfies the same closed form |
| `Macros.ReservedCloseCodesRejected` | PocketSocket/PSWebSocketMacros.h:47-54 | 1004, 1005 and 1006 are rejected, and every accepted code of 1000-1011 is one the protocol defines |
| `StatusCodes.NamedStatusCodesValidity` | PocketSocket/PSWebSocketStatusCodes.h:11-22 | every named status code is a valid close code except NoStatusReceived (1005) |

## Left out

- The frame parser, frame serialiser and handshake state machine of
  `PSWebSocketDriver.h`: only method declarations are available, so no
  behaviour of them can be checked. PSWebSocketDriver.m is not part of this
  model.
- The offset/compaction buffer of `PSWebSocketBuffer.h`: interface only;
  PSWebSocketBuffer.m is not part of this model.
- The UTF-8 decoder of `PSWebSocketUTF8Decoder.h`: only its prototype and the
  Accept = 0 / Reject = 1 constants are available, not its transition table.
- The deflater and inflater: thin wrappers over zlib, a foreign library.
- The socket, server and network-thread facades (`PSWebSocket.h`,
  `PSWebSocketServer.h`, `PSWebSocketNetworkThread.h`): streams, TLS, run
  loops and dispatch queues, which are I/O and concurrency.
- `PSWebSocketMessage.h` and `PSWebSocketErrorCodes.h`: plain data and enums
  with no logic.
- The `PSWebSocketSetOutError`, `PSWebSocketSetOutErrorWithUnderlyingError`
  and `PSWebSocketLog` macros: NSError construction and NSLog output.
- The `PSWebSocketGUID` and `PSWebSocketErrorDomain` string constants of
  `PSWebSocketTypes.h`: used only by the handshake and error reporting, which
  are outside this model.
