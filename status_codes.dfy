/** PSWebSocketStatusCodes.h: the named Close status codes, and how the
    close-code rule treats each of them. */
module StatusCodes {
  import Types
  import Internal

  const Normal: Types.int64 := 1000
  const GoingAway: Types.int64 := 1001
  const ProtocolError: Types.int64 := 1002
  const UnhandledType: Types.int64 := 1003
  const NoStatusReceived: Types.int64 := 1005
  const InvalidUTF8: Types.int64 := 1007
  const PolicyViolated: Types.int64 := 1008
  const MessageTooBig: Types.int64 := 1009

  /** Every named status code is a valid close code except NoStatusReceived,
      which stands for the absence of a code and may not appear on the wire. */
  lemma NamedStatusCodesValidity()
    ensures Internal.CloseCodeIsValid(Normal) && Internal.CloseCodeIsValid(GoingAway)
    ensures Internal.CloseCodeIsValid(ProtocolError) && Internal.CloseCodeIsValid(UnhandledType)
    ensures Internal.CloseCodeIsValid(InvalidUTF8) && Internal.CloseCodeIsValid(PolicyViolated)
    ensures Internal.CloseCodeIsValid(MessageTooBig)
    ensures !Internal.CloseCodeIsValid(NoStatusReceived)
  {
  }
}
